/** LG frames as mark/space timings: the synthesiser, the reader that recovers the 28 bits from the
    space widths, and what the two transports do to a synthesised frame. */
module LgTimings {
  import opened Wrappers
  import opened Payload
  import opened Integers
  import opened LgFrame
  import opened LgDecode
  import LgVerdicts
  import Broadlink
  import TuyaChunk

  /** `x >> k`. */
  function ShiftRight(x: int, k: nat): int
    decreases k
  {
    if k == 0 then x else ShiftRight(x / 2, k - 1)
  }

  function Bit(x: int, k: nat): nat {
    ShiftRight(x, k) % 2
  }

  function SpaceWidth(bit: nat): int {
    if bit == 1 then ONE_SPACE else ZERO_SPACE
  }

  /** Mark and space for each of the `n` low bits, most significant first. */
  function BitPairs(code: int, n: nat): (r: seq<int>)
    ensures |r| == 2 * n
  {
    if n == 0 then [] else [BIT_MARK, -SpaceWidth(Bit(code, n - 1))] + BitPairs(code, n - 1)
  }

  /** Header and bits, without the closing gap. */
  function FrameTimings(code: int): (r: seq<int>)
    ensures |r| == 58
  {
    [HEADER_MARK, -HEADER_SPACE] + BitPairs(code % FRAME_SIZE, 28)
  }

  function RawTimings(code: int): (r: seq<int>)
    ensures |r| == 59
  {
    FrameTimings(code) + [-TRAILER_SPACE]
  }

  lemma PairStep(done: seq<int>, code: int, n: nat)
    requires n > 0
    ensures done + BitPairs(code, n) == done + [BIT_MARK] + [-SpaceWidth(Bit(code, n - 1))] + BitPairs(code, n - 1)
  {
    assert BitPairs(code, n) == [BIT_MARK] + ([-SpaceWidth(Bit(code, n - 1))] + BitPairs(code, n - 1));
  }

  method RawTimingsFromCode(code0: int) returns (timings: seq<int>)
    ensures timings == RawTimings(code0)
  {
    var code := code0 % FRAME_SIZE;
    timings := [HEADER_MARK, -HEADER_SPACE];
    for pos := 28 downto 0
      invariant timings + BitPairs(code, pos) == FrameTimings(code0)
    {
      PairStep(timings, code, pos + 1);
      var bit := Bit(code, pos);
      timings := timings + [BIT_MARK];
      timings := timings + [-(if bit == 1 then ONE_SPACE else ZERO_SPACE)];
    }
    assert timings + [] == timings;
    timings := timings + [-TRAILER_SPACE];
  }

  // ---------- the reader ----------

  predicate HeaderOk(mark: int, space: int) {
    && mark > 0 && space < 0
    && ((8200 <= mark <= 9500 && 3500 <= -space <= 5000) || (2500 <= mark <= 3800 && 9000 <= -space <= 11000))
  }

  predicate PairOk(mark: int, space: int) {
    320 <= mark <= 700 && 350 <= -space <= 2000
  }

  /** The code so far, extended by the bits of `n` further mark/space pairs. */
  function ReadPairs(raw: seq<int>, at: nat, n: nat, code: int): Option<int>
    requires at + 2 * n <= |raw|
    decreases n
  {
    if n == 0 then Some(code)
    else if !PairOk(raw[at], raw[at + 1]) then None
    else ReadPairs(raw, at + 2, n - 1, 2 * code + if -raw[at + 1] >= 1000 then 1 else 0)
  }

  /** The frame that starts at an entry, if header and pairs have plausible widths. */
  function FrameAt(raw: seq<int>, i: nat): Option<int>
    requires i + 58 <= |raw|
  {
    if HeaderOk(raw[i], raw[i + 1]) then ReadPairs(raw, i + 2, 28, 0) else None
  }

  /** The first genuine frame that starts at entry `i` or later; a frame needs an entry after it. */
  function FirstFrame(raw: seq<int>, i: nat): Option<int>
    decreases |raw| - i
  {
    if i + 58 >= |raw| then None
    else
      match FrameAt(raw, i)
      case Some(code) =>
        var r := DecodeStrict(code, None);
        if r.signatureOk && r.checksumValid then Some(code) else FirstFrame(raw, i + 1)
      case None => FirstFrame(raw, i + 1)
  }

  method ReadFrameAt(raw: seq<int>, i: nat) returns (r: Option<int>)
    requires i + 58 <= |raw|
    ensures r == FrameAt(raw, i)
  {
    if !HeaderOk(raw[i], raw[i + 1]) {
      return None;
    }
    var code := 0;
    for bit := 0 to 28
      invariant ReadPairs(raw, i + 2 + 2 * bit, 28 - bit, code) == ReadPairs(raw, i + 2, 28, 0)
    {
      var mark, space := raw[i + 2 + bit * 2], raw[i + 3 + bit * 2];
      if mark <= 0 || space >= 0 {
        return None;
      }
      if !(320 <= Abs(mark) <= 700 && 350 <= Abs(space) <= 2000) {
        return None;
      }
      code := 2 * code + if Abs(space) >= 1000 then 1 else 0;
    }
    r := Some(code);
  }

  method ExtractFirstFrame(raw: seq<int>) returns (r: Option<int>)
    ensures r == FirstFrame(raw, 0)
  {
    var i := 0;
    while i < Max(0, |raw| - 58)
      invariant 0 <= i <= Max(0, |raw| - 58)
      invariant FirstFrame(raw, i) == FirstFrame(raw, 0)
    {
      var frame := ReadFrameAt(raw, i);
      if frame.Some? {
        var verdict := DecodeStrict(frame.value, None);
        if verdict.signatureOk && verdict.checksumValid {
          return frame;
        }
      }
      i := i + 1;
    }
    r := None;
  }

  // ---------- reading back what was synthesised ----------

  lemma {:induction false} ShiftRightOnce(x: int, k: nat)
    ensures ShiftRight(x, k + 1) == ShiftRight(x, k) / 2
    decreases k
  {
    if k > 0 {
      ShiftRightOnce(x / 2, k - 1);
    }
  }

  lemma FrameBits()
    ensures PowerOfTwo(28) == FRAME_SIZE
  {
    assert PowerOfTwo(7) == 0x80;
    assert PowerOfTwo(14) == 0x4000;
    assert PowerOfTwo(21) == 0x20_0000;
  }

  lemma {:induction false} ShiftsOut(x: int, n: nat)
    requires 0 <= x < PowerOfTwo(n)
    ensures ShiftRight(x, n) == 0
    decreases n
  {
    if n > 0 {
      ShiftsOut(x / 2, n - 1);
    }
  }

  /** Pair `j` of the `n` pairs from entry `at` is plausible and its space tells the right bit. */
  ghost predicate PairArrives(raw: seq<int>, at: nat, code: int, n: nat, j: nat)
    requires at + 2 * n <= |raw| && j < n
  {
    && PairOk(raw[at + 2 * j], raw[at + 2 * j + 1])
    && (-raw[at + 2 * j + 1] >= 1000 <==> Bit(code, n - 1 - j) == 1)
  }

  lemma {:induction false} ArrivedPairsReadBack(raw: seq<int>, at: nat, code: int, n: nat)
    requires at + 2 * n <= |raw| && forall j :: 0 <= j < n ==> PairArrives(raw, at, code, n, j)
    ensures ReadPairs(raw, at, n, ShiftRight(code, n)) == Some(code)
    decreases n
  {
    if n > 0 {
      assert PairArrives(raw, at, code, n, 0);
      var next, fewer := at + 2, n - 1;
      forall j | 0 <= j < fewer
        ensures PairArrives(raw, next, code, fewer, j)
      {
        assert PairArrives(raw, at, code, n, j + 1);
      }
      ArrivedPairsReadBack(raw, next, code, fewer);
      ShiftRightOnce(code, fewer);
    }
  }

  lemma {:induction false} BitPairsAt(code: int, n: nat, j: nat)
    requires j < n
    ensures BitPairs(code, n)[2 * j] == BIT_MARK
    ensures BitPairs(code, n)[2 * j + 1] == -SpaceWidth(Bit(code, n - 1 - j))
    decreases n
  {
    if j > 0 {
      BitPairsAt(code, n - 1, j - 1);
      assert BitPairs(code, n)[2..] == BitPairs(code, n - 1);
    }
  }

  lemma FrameTimingsAt(code: int, j: nat)
    requires j < 28
    ensures FrameTimings(code)[2 + 2 * j] == BIT_MARK
    ensures FrameTimings(code)[3 + 2 * j] == -SpaceWidth(Bit(code % FRAME_SIZE, 27 - j))
  {
    BitPairsAt(code % FRAME_SIZE, 28, j);
  }

  /** A list whose entries are near those synthesised reads back as the same 28 bits. */
  lemma NearbyFrameReadsBack(code: int, raw: seq<int>)
    requires |raw| >= 58
    requires forall i :: 0 <= i < 58 ==> -15 <= raw[i] - FrameTimings(code)[i] <= 15
    ensures FrameAt(raw, 0) == Some(code % FRAME_SIZE)
  {
    var frame, c := FrameTimings(code), code % FRAME_SIZE;
    assert frame[0] == HEADER_MARK && frame[1] == -HEADER_SPACE;
    assert -15 <= raw[0] - frame[0] <= 15 && -15 <= raw[1] - frame[1] <= 15;
    forall j | 0 <= j < 28
      ensures PairArrives(raw, 2, c, 28, j)
    {
      FrameTimingsAt(code, j);
      assert -15 <= raw[2 + 2 * j] - frame[2 + 2 * j] <= 15;
      assert -15 <= raw[3 + 2 * j] - frame[3 + 2 * j] <= 15;
    }
    ArrivedPairsReadBack(raw, 2, c, 28);
    FrameBits();
    ShiftsOut(c, 28);
  }

  /** Every entry of a synthesised list, in microseconds: header, for each bit from the highest a mark and
      a space that is long for a one, and the gap. */
  lemma TimingsEntryByEntry(code: int, j: nat)
    requires j < 28
    ensures var raw := RawTimings(code);
      && |raw| == 59 && raw[0] == 8900 && raw[1] == -4150 && raw[58] == -101502
      && raw[2 + 2 * j] == 500
      && raw[3 + 2 * j] == if code % 0x1000_0000 / PowerOfTwo(27 - j) % 2 == 1 then -1580 else -550
  {
    FrameTimingsAt(code, j);
    ShiftDivides(code % FRAME_SIZE, 27 - j);
  }

  lemma {:induction false} ShiftDivides(x: int, k: nat)
    ensures ShiftRight(x, k) == x / PowerOfTwo(k)
    decreases k
  {
    if k > 0 {
      ShiftDivides(x / 2, k - 1);
      LgVerdicts.HalvesDivide(x, PowerOfTwo(k - 1));
    }
  }

  // ---------- what the reader finds ----------

  /** Pair `j` behind an entry has the widths the reader takes for a bit. */
  predicate BitWidths(raw: seq<int>, at: nat, j: nat)
    requires at + 2 * j + 1 < |raw|
  {
    320 <= raw[at + 2 * j] <= 700 && -2000 <= raw[at + 2 * j + 1] <= -350
  }

  ghost predicate AllBitWidths(raw: seq<int>, at: nat, n: nat)
    requires at + 2 * n <= |raw|
  {
    forall j :: 0 <= j < n ==> BitWidths(raw, at, j)
  }

  /** The space of pair `j` of `n` tells a bit of the code, most significant first. */
  predicate SpaceTells(raw: seq<int>, at: nat, n: nat, code: int, j: nat)
    requires at + 2 * n <= |raw| && j < n
  {
    Bit(code, n - 1 - j) == 1 <==> raw[at + 2 * j + 1] <= -1000
  }

  ghost predicate SpacesTell(raw: seq<int>, at: nat, n: nat, code: int)
    requires at + 2 * n <= |raw|
  {
    forall j :: 0 <= j < n ==> SpaceTells(raw, at, n, code, j)
  }

  lemma {:induction false} ReadsAllPairs(raw: seq<int>, at: nat, n: nat, code: int)
    requires at + 2 * n <= |raw|
    ensures ReadPairs(raw, at, n, code).Some? <==> AllBitWidths(raw, at, n)
    ensures ReadPairs(raw, at, n, code).Some? ==>
      var c := ReadPairs(raw, at, n, code).value;
      ShiftRight(c, n) == code && SpacesTell(raw, at, n, c)
    decreases n
  {
    if n > 0 {
      assert BitWidths(raw, at, 0) <==> PairOk(raw[at], raw[at + 1]);
      WidthsShift(raw, at, n);
      if BitWidths(raw, at, 0) {
        var bit := if -raw[at + 1] >= 1000 then 1 else 0;
        ReadsAllPairs(raw, at + 2, n - 1, 2 * code + bit);
        var r := ReadPairs(raw, at + 2, n - 1, 2 * code + bit);
        if r.Some? {
          ShiftRightOnce(r.value, n - 1);
          TellsShift(raw, at, n, r.value);
        }
      }
    }
  }

  lemma WidthsShift(raw: seq<int>, at: nat, n: nat)
    requires n > 0 && at + 2 * n <= |raw|
    ensures AllBitWidths(raw, at, n) <==> BitWidths(raw, at, 0) && AllBitWidths(raw, at + 2, n - 1)
  {
    var next := at + 2;
    forall j | 0 <= j < n - 1 && AllBitWidths(raw, at, n)
      ensures BitWidths(raw, next, j)
    {
      assert BitWidths(raw, at, j + 1);
    }
    forall j | 0 < j < n && AllBitWidths(raw, at + 2, n - 1)
      ensures BitWidths(raw, at, j)
    {
      assert BitWidths(raw, next, j - 1);
    }
  }

  lemma TellsShift(raw: seq<int>, at: nat, n: nat, code: int)
    requires n > 0 && at + 2 * n <= |raw| && SpacesTell(raw, at + 2, n - 1, code)
    requires Bit(code, n - 1) == 1 <==> raw[at + 1] <= -1000
    ensures SpacesTell(raw, at, n, code)
  {
    forall j | 0 <= j < n
      ensures SpaceTells(raw, at, n, code, j)
    {
      if j > 0 {
        assert SpaceTells(raw, at + 2, n - 1, code, j - 1);
      }
    }
  }

  /** One of the two kinds of header stands at an entry. */
  predicate HeaderWidths(raw: seq<int>, i: nat)
    requires i + 1 < |raw|
  {
    || (8200 <= raw[i] <= 9500 && -5000 <= raw[i + 1] <= -3500)
    || (2500 <= raw[i] <= 3800 && -11000 <= raw[i + 1] <= -9000)
  }

  /** The reader finds a frame at an entry exactly if a header stands there and 28 plausible pairs follow;
      and the frame's bits are what the spaces tell. */
  lemma FrameFoundExactly(raw: seq<int>, i: nat)
    requires i + 58 <= |raw|
    ensures FrameAt(raw, i).Some? <==> HeaderWidths(raw, i) && AllBitWidths(raw, i + 2, 28)
    ensures FrameAt(raw, i).Some? ==> SpacesTell(raw, i + 2, 28, FrameAt(raw, i).value)
    ensures FrameAt(raw, i).Some? ==> 0 <= FrameAt(raw, i).value < 0x1000_0000
  {
    assert HeaderWidths(raw, i) <==> HeaderOk(raw[i], raw[i + 1]);
    ReadsAllPairs(raw, i + 2, 28, 0);
    if FrameAt(raw, i).Some? {
      ShiftedOut(FrameAt(raw, i).value);
    }
  }

  lemma ShiftedOut(code: int)
    requires ShiftRight(code, 28) == 0
    ensures 0 <= code < 0x1000_0000
  {
    FrameBits();
    ShiftDivides(code, 28);
  }

  /** A genuine frame starts at entry `i`, with an entry behind it. */
  ghost predicate GenuineAt(raw: seq<int>, i: nat, code: int) {
    i + 58 < |raw| && FrameAt(raw, i) == Some(code) && Genuine(code)
  }

  ghost predicate NoneGenuine(raw: seq<int>, from: nat, to: nat) {
    forall i: nat, code :: from <= i < to ==> !GenuineAt(raw, i, code)
  }

  lemma SearchStep(raw: seq<int>, i: nat)
    requires i + 58 < |raw|
    ensures FrameAt(raw, i).Some? && Genuine(FrameAt(raw, i).value) ==>
      FirstFrame(raw, i) == FrameAt(raw, i) && GenuineAt(raw, i, FrameAt(raw, i).value)
    ensures !(FrameAt(raw, i).Some? && Genuine(FrameAt(raw, i).value)) ==>
      FirstFrame(raw, i) == FirstFrame(raw, i + 1) && NoneGenuine(raw, i, i + 1)
  {
    var frame := FrameAt(raw, i);
    if frame.Some? {
      FrameFoundExactly(raw, i);
      VerdictBits(frame.value);
    }
  }

  /** The search yields the first genuine frame at or behind an entry, and nothing exactly if there is
      none. */
  lemma {:induction false} FirstFrameIsFirst(raw: seq<int>, from: nat) returns (at: nat)
    ensures from <= at && NoneGenuine(raw, from, at)
    ensures FirstFrame(raw, from).Some? ==> GenuineAt(raw, at, FirstFrame(raw, from).value)
    ensures FirstFrame(raw, from).None? ==> at + 58 >= |raw|
    decreases |raw| - from
  {
    at := from;
    if from + 58 < |raw| {
      SearchStep(raw, from);
      if !(FrameAt(raw, from).Some? && Genuine(FrameAt(raw, from).value)) {
        at := FirstFrameIsFirst(raw, from + 1);
      }
    }
  }

  // ---------- chunk transport ----------

  lemma FrameEntries(code: int, i: nat)
    requires i < 58
    ensures 16 <= Abs(FrameTimings(code)[i]) <= HEADER_MARK
    ensures FrameTimings(code)[i] == Signed(i, Abs(FrameTimings(code)[i]))
  {
    if i >= 2 {
      var j := (i - 2) / 2;
      FrameTimingsAt(code, j);
      assert i == 2 + 2 * j || i == 3 + 2 * j;
    }
  }

  /** The chunk coder carries a synthesised list except for its last entry: the gap sits at an even
      position and exceeds 16 bits, so it arrives positive and clamped. */
  lemma ChunkTransport(code: int)
    ensures TuyaChunk.Decode(TuyaChunk.Encode(RawTimings(code))) == Ok(FrameTimings(code) + [0xFFFF])
  {
    var raw := RawTimings(code);
    TuyaChunk.RoundTrip(raw);
    forall i | 0 <= i < 59
      ensures Saturated(raw)[i] == (FrameTimings(code) + [0xFFFF])[i]
    {
      if i < 58 {
        FrameEntries(code, i);
      }
    }
    assert Saturated(raw) == FrameTimings(code) + [0xFFFF];
  }

  /** After chunk transport the reader finds the frame at the first entry; searching finds it exactly
      when the frame is genuine. */
  lemma ChunkTransportReadsBack(code: int)
    ensures var got := TuyaChunk.Decode(TuyaChunk.Encode(RawTimings(code)));
      && got.Ok? && |got.value| == 59
      && FrameAt(got.value, 0) == Some(code % FRAME_SIZE)
      && FirstFrame(got.value, 0) == if Genuine(code % FRAME_SIZE) then Some(code % FRAME_SIZE) else None
  {
    var got := FrameTimings(code) + [0xFFFF];
    ChunkTransport(code);
    NearbyFrameReadsBack(code, got);
    assert FirstFrame(got, 1) == None;
    VerdictBits(code % FRAME_SIZE);
  }

  lemma VerdictBits(code: int)
    requires 0 <= code < FRAME_SIZE
    ensures var r := DecodeStrict(code, None); r.signatureOk && r.checksumValid <==> Genuine(code)
  {
    assert code % FRAME_SIZE == code;
  }

  // ---------- Broadlink transport ----------

  lemma FrameUnits()
    ensures Broadlink.Units(HEADER_MARK) == 292 && Broadlink.Units(-HEADER_SPACE) == 136
    ensures Broadlink.Units(BIT_MARK) == 16
    ensures Broadlink.Units(-ZERO_SPACE) == 18 && Broadlink.Units(-ONE_SPACE) == 52
    ensures Broadlink.Units(-TRAILER_SPACE) == Broadlink.TRAILER_UNITS
  {
  }

  lemma {:induction false} BitPairStream(code: int, n: nat)
    ensures var s := Broadlink.UnitStream(BitPairs(code, n));
      |s| == 2 * n && (n > 0 ==> s[|s| - 1] != 0)
    decreases n
  {
    if n > 0 {
      var space := -SpaceWidth(Bit(code, n - 1));
      var pair := [BIT_MARK, space];
      FrameUnits();
      BitPairStream(code, n - 1);
      assert pair[1..] == [space];
      Broadlink.SingleUnit(space);
      Broadlink.StreamAppend(pair, BitPairs(code, n - 1));
    }
  }

  lemma FrameStream(code: int)
    ensures var s := Broadlink.UnitStream(FrameTimings(code));
      |s| == 60 && s[59] != 0
  {
    var head := [HEADER_MARK, -HEADER_SPACE];
    FrameUnits();
    assert head[1..] == [-HEADER_SPACE];
    Broadlink.SingleUnit(-HEADER_SPACE);
    BitPairStream(code % FRAME_SIZE, 28);
    Broadlink.StreamAppend(head, BitPairs(code % FRAME_SIZE, 28));
  }

  /** Every code survives Broadlink transport: the closing gap quantises to the trailer mark and is
      always dropped, the other 58 entries arrive within 15 microseconds, and the same 28 bits are
      read back; but a search finds nothing, because it wants an entry after the frame. */
  lemma BroadlinkTransport(code: int)
    ensures var got := Broadlink.Decode(Broadlink.Encode(RawTimings(code)));
      && got.Ok? && |got.value| == 58
      && (forall i :: 0 <= i < 58 ==> -15 <= got.value[i] - FrameTimings(code)[i] <= 15)
      && FrameAt(got.value, 0) == Some(code % FRAME_SIZE)
      && FirstFrame(got.value, 0) == None
  {
    var frame := FrameTimings(code);
    FrameUnits();
    FrameStream(code);
    Broadlink.FinalTrailerGapIsDropped(frame, -TRAILER_SPACE);
    var got := Broadlink.Quantised(frame);
    forall i | 0 <= i < 58
      ensures -15 <= got[i] - frame[i] <= 15
    {
      FrameEntries(code, i);
      Broadlink.QuantisationBound(frame[i]);
    }
    NearbyFrameReadsBack(code, got);
  }
}
