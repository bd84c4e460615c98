/** The LG 28-bit frame: nibbles, checksum, encoders, and its expansion to mark/space timings.
    Bit operations are written as division and remainder by powers of two, which is exact for
    Python's unbounded integers, negative ones included. */
module LgFrame {
  import opened Integers

  const FRAME_SIZE := 0x1000_0000
  const SIGNATURE := 0x88
  const OFF_COMMAND := 0x88C0051
  const TEMP_ADJUST := 15

  const HEADER_MARK := 8900
  const HEADER_SPACE := 4150
  const BIT_MARK := 500
  const ZERO_SPACE := 550
  const ONE_SPACE := 1580
  const TRAILER_SPACE := 101502

  /** Normalised operating modes and fan speeds; any other text is kept by name. */
  datatype Mode = Cool | Dry | FanOnly | AutoMode | Heat | ModeOff | OtherMode(name: string)

  datatype Fan = AutoFan | Low | Mid | High | Medium | OtherFan(name: string)

  const UNKNOWN_MODE := OtherMode("unknown")
  const UNKNOWN_FAN := OtherFan("unknown")

  // ---------- nibbles and checksum ----------

  /** `x >> 4 * k`. */
  function Shift4(x: int, k: nat): int
    decreases k
  {
    if k == 0 then x else Shift4(x / 16, k - 1)
  }

  function Nibble(x: int, k: nat): (n: nat)
    ensures n < 16
  {
    Shift4(x, k) % 16
  }

  /** The sum of the four nibbles of a 16-bit word, modulo 16. */
  function SumNibbles16(value: int): nat {
    (Nibble(value, 0) + Nibble(value, 1) + Nibble(value, 2) + Nibble(value, 3)) % 16
  }

  function CommandWord(code: int): nat {
    code / 16 % 0x1_0000
  }

  function Checksum(code: int): nat {
    SumNibbles16(CommandWord(code))
  }

  predicate ValidChecksum(code: int) {
    code % 16 == Checksum(code)
  }

  function Signature(code: int): nat {
    code / 0x10_0000 % 256
  }

  /** A frame both checks accept. */
  predicate Genuine(code: int) {
    0 <= code < FRAME_SIZE && Signature(code) == SIGNATURE && ValidChecksum(code)
  }

  function PartialNibbleSum(value: int, n: nat): nat {
    if n == 0 then 0 else PartialNibbleSum(value, n - 1) + Nibble(value, n - 1)
  }

  lemma {:induction false} ShiftOnce(x: int, k: nat)
    ensures Shift4(x, k + 1) == Shift4(x, k) / 16
    decreases k
  {
    if k > 0 {
      ShiftOnce(x / 16, k - 1);
    }
  }

  method SumNibblesLoop(value: int) returns (sum: nat)
    ensures sum == SumNibbles16(value)
  {
    var acc, v := 0, value;
    for i := 0 to 4
      invariant acc == PartialNibbleSum(value, i) && v == Shift4(value, i)
    {
      ShiftOnce(value, i);
      acc := acc + v % 16;
      v := v / 16;
    }
    assert acc == PartialNibbleSum(value, 3) + Nibble(value, 3);
    assert PartialNibbleSum(value, 3) == PartialNibbleSum(value, 2) + Nibble(value, 2);
    assert PartialNibbleSum(value, 2) == PartialNibbleSum(value, 1) + Nibble(value, 1);
    sum := acc % 16;
  }

  /** Masking to 16, 12 or 8 bits commutes with a shift by a nibble. */
  lemma Mask16(x: int)
    ensures (x % 0x1_0000) / 16 == (x / 16) % 0x1000 && (x % 0x1_0000) % 16 == x % 16
  {
    var q, r := x / 0x1_0000, x % 0x1_0000;
    assert x / 16 == 0x1000 * q + r / 16;
  }

  lemma Mask12(x: int)
    ensures (x % 0x1000) / 16 == (x / 16) % 0x100 && (x % 0x1000) % 16 == x % 16
  {
    var q, r := x / 0x1000, x % 0x1000;
    assert x / 16 == 0x100 * q + r / 16;
  }

  lemma Mask8(x: int)
    ensures (x % 0x100) / 16 == (x / 16) % 16 && (x % 0x100) % 16 == x % 16
  {
    var q, r := x / 0x100, x % 0x100;
    assert x / 16 == 16 * q + r / 16;
  }

  lemma CommandNibbles(code: int)
    ensures Nibble(CommandWord(code), 0) == Nibble(code, 1)
    ensures Nibble(CommandWord(code), 1) == Nibble(code, 2)
    ensures Nibble(CommandWord(code), 2) == Nibble(code, 3)
    ensures Nibble(CommandWord(code), 3) == Nibble(code, 4)
  {
    var x := code / 16;
    var w := CommandWord(code);
    Mask16(x);
    Mask12(x / 16);
    Mask8(x / 16 / 16);
    ShiftOnce(w, 0);
    ShiftOnce(w, 1);
    ShiftOnce(w, 2);
    ShiftOnce(code, 0);
    ShiftOnce(code, 1);
    ShiftOnce(code, 2);
    ShiftOnce(code, 3);
  }

  lemma ChecksumByNibbles(code: int)
    ensures Checksum(code) == (Nibble(code, 1) + Nibble(code, 2) + Nibble(code, 3) + Nibble(code, 4)) % 16
  {
    CommandNibbles(code);
  }

  lemma ShiftByLiteral(x: int)
    ensures Shift4(x, 1) == x / 0x10 && Shift4(x, 2) == x / 0x100 && Shift4(x, 3) == x / 0x1000
    ensures Shift4(x, 4) == x / 0x1_0000 && Shift4(x, 5) == x / 0x10_0000 && Shift4(x, 6) == x / 0x100_0000
    ensures Shift4(x, 7) == x / FRAME_SIZE
  {
    ShiftOnce(x, 0);
    ShiftOnce(x, 1);
    ShiftOnce(x, 2);
    ShiftOnce(x, 3);
    ShiftOnce(x, 4);
    ShiftOnce(x, 5);
    ShiftOnce(x, 6);
    assert x / 0x10 / 0x10 == x / 0x100;
    assert x / 0x100 / 0x10 == x / 0x1000;
    assert x / 0x1000 / 0x10 == x / 0x1_0000;
    assert x / 0x1_0000 / 0x10 == x / 0x10_0000;
    assert x / 0x10_0000 / 0x10 == x / 0x100_0000;
    assert x / 0x100_0000 / 0x10 == x / FRAME_SIZE;
  }

  lemma SignatureByNibbles(code: int)
    ensures Signature(code) == 16 * Nibble(code, 6) + Nibble(code, 5)
  {
    ShiftByLiteral(code);
    ShiftOnce(code, 5);
    Mask8(code / 0x10_0000);
  }

  /** The seven nibbles of a frame, least significant first. */
  function Nibbles(code: int): (r: seq<nat>)
    ensures |r| == 7
  {
    seq(7, k requires 0 <= k < 7 => Nibble(code, k))
  }

  predicate GenuineNibbles(n: seq<nat>)
    requires |n| == 7
  {
    n[6] == 8 && n[5] == 8 && n[0] == (n[1] + n[2] + n[3] + n[4]) % 16
  }

  lemma GenuineByNibbles(code: int)
    requires 0 <= code < FRAME_SIZE
    ensures Genuine(code) <==> GenuineNibbles(Nibbles(code))
  {
    ChecksumByNibbles(code);
    SignatureByNibbles(code);
  }

  // ---------- one damaged nibble ----------

  /** The number with nibble `k` replaced. */
  function SetNibble(x: int, k: nat, v: nat): int
    requires v < 16
    decreases k
  {
    if k == 0 then x - x % 16 + v else SetNibble(x / 16, k - 1, v) * 16 + x % 16
  }

  lemma {:induction false} SetNibbleReads(x: int, k: nat, v: nat, j: nat)
    requires v < 16
    ensures Nibble(SetNibble(x, k, v), j) == if j == k then v else Nibble(x, j)
    decreases k + j
  {
    var y := SetNibble(x, k, v);
    if k > 0 && j > 0 {
      SetNibbleReads(x / 16, k - 1, v, j - 1);
      assert y / 16 == SetNibble(x / 16, k - 1, v);
    } else if j > 0 {
      assert y / 16 == x / 16;
    }
  }

  lemma {:induction false} SetNibbleStaysInRange(x: int, k: nat, v: nat, size: int, bits: nat)
    requires v < 16 && k < bits && size == Power16(bits) && 0 <= x < size
    ensures 0 <= SetNibble(x, k, v) < size
    decreases k
  {
    var small := Power16(bits - 1);
    var q, r := x / 16, x % 16;
    assert size == 16 * small && x == 16 * q + r;
    if k > 0 {
      SetNibbleStaysInRange(q, k - 1, v, small, bits - 1);
    }
  }

  function Power16(k: nat): nat {
    if k == 0 then 1 else 16 * Power16(k - 1)
  }

  lemma OneDigitBreaksSum(n: seq<nat>, k: nat, v: nat)
    requires |n| == 7 && k < 7 && v < 16 && n[k] < 16 && v != n[k] && GenuineNibbles(n)
    ensures !GenuineNibbles(n[k := v])
  {
    var sum := n[1] + n[2] + n[3] + n[4];
    if 1 <= k <= 4 {
      NearbyResiduesDiffer(sum, sum - n[k] + v);
    }
  }

  lemma NearbyResiduesDiffer(x: int, y: int)
    requires x != y && -16 < x - y < 16
    ensures x % 16 != y % 16
  {
  }

  /** Replacing any one nibble of a genuine frame by a different value breaks the signature or the
      checksum. */
  lemma OneNibbleBreaksFrame(code: int, k: nat, v: nat)
    requires Genuine(code) && k < 7 && v < 16 && v != Nibble(code, k)
    ensures 0 <= SetNibble(code, k, v) < FRAME_SIZE && !Genuine(SetNibble(code, k, v))
  {
    var damaged := SetNibble(code, k, v);
    assert Power16(7) == FRAME_SIZE;
    SetNibbleStaysInRange(code, k, v, FRAME_SIZE, 7);
    forall j: nat | j < 7
      ensures Nibbles(damaged)[j] == Nibbles(code)[k := v][j]
    {
      SetNibbleReads(code, k, v, j);
    }
    assert Nibbles(damaged) == Nibbles(code)[k := v];
    GenuineByNibbles(code);
    GenuineByNibbles(damaged);
    OneDigitBreaksSum(Nibbles(code), k, v);
  }

  // ---------- one damaged bit ----------

  /** `x ^ (1 << b)`. */
  function FlipBit(x: int, b: nat): int
    decreases b
  {
    if b == 0 then (if x % 2 == 0 then x + 1 else x - 1) else FlipBit(x / 2, b - 1) * 2 + x % 2
  }

  lemma FlipKeeps1(x: int, q: int)
    ensures FlipBit(2 * q + x, 0) == 2 * q + FlipBit(x, 0)
  {
  }

  lemma FlipKeeps2(x: int, q: int, b: nat)
    requires b < 2
    ensures FlipBit(4 * q + x, b) == 4 * q + FlipBit(x, b)
  {
    if b > 0 {
      FlipKeeps1(x / 2, q);
      assert (4 * q + x) / 2 == 2 * q + x / 2;
    }
  }

  lemma FlipKeeps3(x: int, q: int, b: nat)
    requires b < 3
    ensures FlipBit(8 * q + x, b) == 8 * q + FlipBit(x, b)
  {
    if b > 0 {
      FlipKeeps2(x / 2, q, b - 1);
      assert (8 * q + x) / 2 == 4 * q + x / 2;
    }
  }

  lemma FlipKeeps4(x: int, q: int, b: nat)
    requires b < 4
    ensures FlipBit(16 * q + x, b) == 16 * q + FlipBit(x, b)
  {
    if b > 0 {
      FlipKeeps3(x / 2, q, b - 1);
      assert (16 * q + x) / 2 == 8 * q + x / 2;
    }
  }

  lemma {:induction false} FlipStaysInRange(x: int, b: nat, size: int)
    requires 0 <= x < size
    requires (size == 16 && b < 4) || (size == 8 && b < 3) || (size == 4 && b < 2) || (size == 2 && b < 1)
    ensures 0 <= FlipBit(x, b) < size && FlipBit(x, b) != x
    decreases b
  {
    if b > 0 {
      FlipStaysInRange(x / 2, b - 1, size / 2);
    }
  }

  lemma FlipBitOfNibble(x: int, b: nat)
    requires b < 4
    ensures 0 <= FlipBit(x % 16, b) < 16 && FlipBit(x % 16, b) != x % 16
    ensures FlipBit(x, b) == x - x % 16 + FlipBit(x % 16, b)
  {
    var q, r := x / 16, x % 16;
    assert x == 16 * q + r;
    FlipKeeps4(r, q, b);
    FlipStaysInRange(r, b, 16);
  }

  lemma FlipBitAboveNibble(x: int, b: nat)
    ensures FlipBit(x, b + 4) == FlipBit(x / 16, b) * 16 + x % 16
  {
    assert x / 2 / 2 / 2 / 2 == x / 16;
    assert FlipBit(x, b + 4) == FlipBit(x / 2, b + 3) * 2 + x % 2;
    assert FlipBit(x / 2, b + 3) == FlipBit(x / 2 / 2, b + 2) * 2 + x / 2 % 2;
    assert FlipBit(x / 2 / 2, b + 2) == FlipBit(x / 2 / 2 / 2, b + 1) * 2 + x / 2 / 2 % 2;
    assert FlipBit(x / 2 / 2 / 2, b + 1) == FlipBit(x / 16, b) * 2 + x / 2 / 2 / 2 % 2;
  }

  /** Flipping a bit is replacing the nibble that holds it by a different one. */
  lemma {:induction false} FlipBitIsSetNibble(x: int, b: nat) returns (v: nat)
    ensures v < 16 && v != Nibble(x, b / 4) && FlipBit(x, b) == SetNibble(x, b / 4, v)
    decreases b
  {
    if b < 4 {
      FlipBitOfNibble(x, b);
      v := FlipBit(x % 16, b);
    } else {
      v := FlipBitIsSetNibble(x / 16, b - 4);
      FlipBitAboveNibble(x, b - 4);
    }
  }

  /** Any single-bit error in any of the 28 bits breaks a genuine frame. */
  lemma OneBitBreaksFrame(code: int, b: nat)
    requires Genuine(code) && b < 28
    ensures 0 <= FlipBit(code, b) < FRAME_SIZE && !Genuine(FlipBit(code, b))
  {
    var v := FlipBitIsSetNibble(code, b);
    OneNibbleBreaksFrame(code, b / 4, v);
  }

  // ---------- frames from nibbles ----------

  /** The number whose base-16 digits, least significant first, are `n`. */
  function Compose(n: seq<nat>): nat {
    if n == [] then 0 else n[0] + 16 * Compose(n[1..])
  }

  lemma {:induction false} ComposeReads(n: seq<nat>, k: nat)
    requires k < |n| && forall i :: 0 <= i < |n| ==> n[i] < 16
    ensures Nibble(Compose(n), k) == n[k]
  {
    if k > 0 {
      ComposeReads(n[1..], k - 1);
      assert Compose(n) / 16 == Compose(n[1..]);
    }
  }

  lemma ComposeSeven(n: seq<nat>)
    requires |n| == 7 && forall i :: 0 <= i < |n| ==> n[i] < 16
    ensures Nibbles(Compose(n)) == n && 0 <= Compose(n) < FRAME_SIZE
    ensures Compose(n) == n[0] + 0x10 * n[1] + 0x100 * n[2] + 0x1000 * n[3]
                          + 0x1_0000 * n[4] + 0x10_0000 * n[5] + 0x100_0000 * n[6]
  {
    forall k | 0 <= k < 7
      ensures Nibbles(Compose(n))[k] == n[k]
    {
      ComposeReads(n, k);
    }
    ComposeValue(n);
  }

  lemma ComposeValue(n: seq<nat>)
    requires |n| == 7
    ensures Compose(n) == n[0] + 0x10 * n[1] + 0x100 * n[2] + 0x1000 * n[3]
                          + 0x1_0000 * n[4] + 0x10_0000 * n[5] + 0x100_0000 * n[6]
  {
    ComposeFrom(n, 0);
    ComposeFrom(n, 1);
    ComposeFrom(n, 2);
    ComposeFrom(n, 3);
    ComposeFrom(n, 4);
    ComposeFrom(n, 5);
    ComposeFrom(n, 6);
    assert n[0..] == n && n[7..] == [];
  }

  lemma ComposeFrom(n: seq<nat>, k: nat)
    requires k < |n|
    ensures Compose(n[k..]) == n[k] + 16 * Compose(n[k + 1..])
  {
    assert n[k..][1..] == n[k + 1..];
  }

  /** A frame is determined by its nibbles. */
  lemma FrameIsItsNibbles(code: int)
    requires 0 <= code < FRAME_SIZE
    ensures Compose(Nibbles(code)) == code
  {
    ComposeValue(Nibbles(code));
    ShiftSplit(code, 0);
    ShiftSplit(code, 1);
    ShiftSplit(code, 2);
    ShiftSplit(code, 3);
    ShiftSplit(code, 4);
    ShiftSplit(code, 5);
    ShiftSplit(code, 6);
    ShiftByLiteral(code);
  }

  lemma ShiftSplit(x: int, k: nat)
    ensures Shift4(x, k) == 16 * Shift4(x, k + 1) + Nibble(x, k)
  {
    ShiftOnce(x, k);
  }

  // ---------- encoders ----------

  function PackBody(sign: int, power: int, mode: int, tempRaw: int, fan: int): int {
    sign % 256 * 0x10_0000 + power % 4 * 0x4_0000 + mode % 8 * 0x1000 + tempRaw % 16 * 0x100 + fan % 16 * 0x10
  }

  function ApplyChecksum(body: int): int {
    var cleared := body % 0x1_0000_0000 - body % 16;
    cleared + Checksum(cleared)
  }

  function NativeMode(mode: Mode): (native: nat)
    ensures native < 8
  {
    match mode
    case Cool => 0
    case Dry => 1
    case FanOnly => 2
    case AutoMode => 3
    case Heat => 4
    case ModeOff => 0
    case OtherMode(_) => 0
  }

  function ModeFromNative(native: nat): Mode {
    if native == 0 then Cool
    else if native == 1 then Dry
    else if native == 2 then FanOnly
    else if native == 3 then AutoMode
    else if native == 4 then Heat
    else UNKNOWN_MODE
  }

  function NativeFan(fan: Fan): (native: nat)
    ensures native < 16
  {
    match fan
    case AutoFan => 5
    case Low => 1
    case Mid => 2
    case Medium => 2
    case High => 4
    case OtherFan(_) => 5
  }

  function FanFromNative(native: nat): Fan {
    if native == 5 then AutoFan
    else if native == 1 then Low
    else if native == 2 then Mid
    else if native == 4 then High
    else if native == 0 then Low
    else UNKNOWN_FAN
  }

  function ClampTemperature(celsius: int): (t: int)
    ensures 16 <= t <= 30
  {
    Max(16, Min(30, celsius))
  }

  /** The state encoder; the pilot engine's encoder is the same text. */
  function EncodeState(powerOn: bool, mode: Mode, celsius: int, fan: Fan): int {
    if !powerOn || mode == ModeOff then OFF_COMMAND
    else ApplyChecksum(PackBody(SIGNATURE, 0, NativeMode(mode), ClampTemperature(celsius) - TEMP_ADJUST, NativeFan(fan)))
  }

  function EncodeCommand(word: int): int {
    ApplyChecksum(SIGNATURE * 0x10_0000 + word % 0x1_0000 * 16)
  }

  /** Adding the checksum to a signed body whose command nibbles are `a, b, c, d`. */
  lemma ChecksummedBody(body: int, a: nat, b: nat, c: nat, d: nat)
    requires a < 16 && b < 16 && c < 16 && d < 16
    requires body == 0x880_0000 + 0x1_0000 * d + 0x1000 * c + 0x100 * b + 0x10 * a
    ensures Nibbles(ApplyChecksum(body)) == [(a + b + c + d) % 16, a, b, c, d, 8, 8]
    ensures Genuine(ApplyChecksum(body))
  {
    var sum := (a + b + c + d) % 16;
    OpenBody(body, a, b, c, d);
    ChecksumOfAligned(body);
    SignedFrame(body + sum, sum, a, b, c, d);
    GenuineByNibbles(body + sum);
  }

  lemma SignedFrame(code: int, s: nat, a: nat, b: nat, c: nat, d: nat)
    requires s < 16 && a < 16 && b < 16 && c < 16 && d < 16
    requires code == 0x880_0000 + 0x1_0000 * d + 0x1000 * c + 0x100 * b + 0x10 * a + s
    ensures Nibbles(code) == [s, a, b, c, d, 8, 8] && 0 <= code < FRAME_SIZE
  {
    ComposeSeven([s, a, b, c, d, 8, 8]);
  }

  lemma OpenBody(body: int, a: nat, b: nat, c: nat, d: nat)
    requires a < 16 && b < 16 && c < 16 && d < 16
    requires body == 0x880_0000 + 0x1_0000 * d + 0x1000 * c + 0x100 * b + 0x10 * a
    ensures Checksum(body) == (a + b + c + d) % 16 && 0 <= body < FRAME_SIZE && body % 16 == 0
  {
    SignedFrame(body, 0, a, b, c, d);
    ChecksumByNibbles(body);
    var n := Nibbles(body);
    assert n[0] == 0 && n[1] == a && n[2] == b && n[3] == c && n[4] == d;
  }

  lemma ChecksumOfAligned(body: int)
    requires 0 <= body < FRAME_SIZE && body % 16 == 0
    ensures ApplyChecksum(body) == body + Checksum(body)
  {
    assert body % 0x1_0000_0000 == body;
  }

  lemma PackedState(mode: nat, tempRaw: nat, fan: nat)
    requires mode < 8 && tempRaw < 16 && fan < 16
    ensures PackBody(SIGNATURE, 0, mode, tempRaw, fan) == 0x880_0000 + 0x1000 * mode + 0x100 * tempRaw + 0x10 * fan
  {
  }

  /** What an encoded state looks like: fan, temperature, mode, a zero nibble, the signature. */
  lemma EncodedStateNibbles(mode: Mode, celsius: int, fan: Fan)
    requires mode != ModeOff
    ensures var code, t := EncodeState(true, mode, celsius, fan), ClampTemperature(celsius) - TEMP_ADJUST;
      && Genuine(code)
      && Nibbles(code) == [(NativeFan(fan) + t + NativeMode(mode)) % 16, NativeFan(fan), t, NativeMode(mode), 0, 8, 8]
  {
    var m, t, f := NativeMode(mode), ClampTemperature(celsius) - TEMP_ADJUST, NativeFan(fan);
    PackedState(m, t, f);
    ChecksummedBody(PackBody(SIGNATURE, 0, m, t, f), f, t, m, 0);
  }

  /** States and the nibbles they are sent as, one for each mode and each fan speed. */
  predicate SampleFrame(mode: Mode, celsius: int, fan: Fan, nibbles: seq<nat>) {
    || (mode, celsius, fan, nibbles) == (Cool, 24, AutoFan, [0xE, 5, 9, 0, 0, 8, 8])
    || (mode, celsius, fan, nibbles) == (Dry, 16, Low, [3, 1, 1, 1, 0, 8, 8])
    || (mode, celsius, fan, nibbles) == (FanOnly, 30, Mid, [3, 2, 0xF, 2, 0, 8, 8])
    || (mode, celsius, fan, nibbles) == (AutoMode, 22, High, [0xE, 4, 7, 3, 0, 8, 8])
    || (mode, celsius, fan, nibbles) == (Heat, 20, Medium, [0xB, 2, 5, 4, 0, 8, 8])
  }

  lemma SampleNibbles(mode: Mode, celsius: int, fan: Fan, nibbles: seq<nat>)
    requires SampleFrame(mode, celsius, fan, nibbles)
    ensures var m, t, f := NativeMode(mode), ClampTemperature(celsius) - TEMP_ADJUST, NativeFan(fan);
      mode != ModeOff && nibbles == [(f + t + m) % 16, f, t, m, 0, 8, 8]
  {
  }

  lemma SampleFrames(mode: Mode, celsius: int, fan: Fan, nibbles: seq<nat>)
    requires SampleFrame(mode, celsius, fan, nibbles)
    ensures Nibbles(EncodeState(true, mode, celsius, fan)) == nibbles
  {
    SampleNibbles(mode, celsius, fan, nibbles);
    EncodedStateNibbles(mode, celsius, fan);
  }
}
