/** The Broadlink packet: timings quantised to units of 8192/269 microseconds, one byte for small
    counts and three for large ones, between a header and a trailer. */
module Broadlink {
  import opened Wrappers
  import opened Payload
  import opened Integers
  import opened Sequences

  const UNIT_NUM := 8192
  const UNIT_DEN := 269
  const MAX_UNITS := 0xFFFF

  /** Nearest integer to `num / den`, ties to the even neighbour. */
  function RoundHalfEven(num: nat, den: nat): (r: nat)
    requires den > 0
  {
    RoundFrom(num / den, num % den, den)
  }

  /** Rounding given quotient and remainder. */
  function RoundFrom(q: nat, rem: nat, den: nat): nat {
    if 2 * rem < den then q
    else if 2 * rem > den then q + 1
    else if q % 2 == 0 then q
    else q + 1
  }

  function RawUnits(timing: int): nat {
    RoundHalfEven(Abs(timing) * UNIT_DEN, UNIT_NUM)
  }

  /** The unit count a timing is sent as. */
  function Units(timing: int): (u: nat)
    ensures 1 <= u <= MAX_UNITS
  {
    Max(1, Min(MAX_UNITS, RawUnits(timing)))
  }

  /** The microseconds a unit count is read as. */
  function Microseconds(units: nat): nat {
    RoundHalfEven(units * UNIT_NUM, UNIT_DEN)
  }

  function UnitBytes(units: nat): (r: seq<Byte>)
    requires 1 <= units <= MAX_UNITS
    ensures |r| == 1 || |r| == 3
  {
    if units <= 0xFF then [units] else [0, units / 256, units % 256]
  }

  /** The variable-width units of a timing list. */
  function UnitStream(raw: seq<int>): seq<Byte> {
    if raw == [] then [] else UnitBytes(Units(raw[0])) + UnitStream(raw[1..])
  }

  function Encode(raw: seq<int>): seq<Byte> {
    var payload := UnitStream(raw);
    [0x26, 0x00, |payload| % 256, |payload| / 256 % 256] + payload + [0x0D, 0x05]
  }

  /** Position of the last trailer mark. */
  function LastTrailer(body: seq<Byte>): (r: Option<nat>)
    ensures r.Some? ==> r.value + 2 <= |body| && body[r.value] == 0x0D && body[r.value + 1] == 0x05
    ensures forall i :: (if r.Some? then r.value < i else 0 <= i) && i + 1 < |body| ==>
      !(body[i] == 0x0D && body[i + 1] == 0x05)
  {
    if |body| < 2 then None
    else if body[|body| - 2] == 0x0D && body[|body| - 1] == 0x05 then Some(|body| - 2)
    else LastTrailer(body[..|body| - 1])
  }

  /** The body without the zero bytes at its end. */
  function StripZeros(body: seq<Byte>): (r: seq<Byte>)
    ensures |r| <= |body| && r == body[..|r|]
    ensures r != [] ==> r[|r| - 1] != 0
    ensures forall i :: |r| <= i < |body| ==> body[i] == 0
  {
    if body == [] || body[|body| - 1] != 0 then body else StripZeros(body[..|body| - 1])
  }

  /** The unit counts read so far, followed by those of the rest of the body; a lone zero at the very
      end is tolerated as padding. */
  function ParseUnits(body: seq<Byte>, done: seq<nat>): Result<seq<nat>, CodecError>
    decreases |body|
  {
    if body == [] then Ok(done)
    else if body[0] == 0 then
      if |body| == 1 then Ok(done)
      else if |body| == 2 then Err(TruncatedTiming)
      else ParseUnits(body[3..], done + [BigUnits(body[1], body[2])])
    else ParseUnits(body[1..], done + [body[0] as int])
  }

  function BigUnits(hi: Byte, lo: Byte): nat {
    hi as int * 256 + lo as int
  }

  /** The alternating timings unit counts are read as. */
  function TimingsOf(us: seq<nat>): (r: seq<int>)
    ensures |r| == |us|
  {
    seq(|us|, i requires 0 <= i < |us| => Signed(i, Microseconds(us[i])))
  }

  /** The part of a packet's declared window that carries timings. */
  function Body(window: seq<Byte>): seq<Byte> {
    StripZeros(match LastTrailer(window)
               case Some(at) => window[..at]
               case None => window)
  }

  /** What the decoder makes of a declared window. */
  function FromWindow(window: seq<Byte>): Result<seq<int>, CodecError> {
    if Body(window) == [] then Err(EmptyBody)
    else
      match ParseUnits(Body(window), [])
      case Err(e) => Err(e)
      case Ok(us) => if us == [] then Err(NoTimings) else Ok(TimingsOf(us))
  }

  function Decode(data: seq<Byte>): Result<seq<int>, CodecError> {
    if data == [] then Err(EmptyPayload)
    else if |data| < 6 then Err(TooShort)
    else if data[0] != 0x26 then Err(BadSignature)
    else
      var end := 4 + Word(data[2], data[3]);
      if end > |data| then Err(DeclaredLength)
      else FromWindow(data[4..end])
  }

  /** What a list becomes on the wire: quantised magnitudes, signs from position. */
  function Quantised(raw: seq<int>): (r: seq<int>)
    ensures |r| == |raw|
  {
    seq(|raw|, i requires 0 <= i < |raw| => Signed(i, Microseconds(Units(raw[i]))))
  }

  // ---------- the source's loops ----------

  method EncodeRawToBroadlink(raw: seq<int>) returns (packet: seq<Byte>)
    ensures packet == Encode(raw)
  {
    var payload: seq<Byte> := [];
    assert raw[0..] == raw && [] + UnitStream(raw) == UnitStream(raw);
    for i := 0 to |raw|
      invariant payload + UnitStream(raw[i..]) == UnitStream(raw)
    {
      var units := Units(raw[i]);
      StreamStep(payload, raw, i);
      if units <= 0xFF {
        payload := payload + [units];
      } else {
        payload := payload + [0x00, units / 256, units % 256];
      }
    }
    assert raw[|raw|..] == [] && payload == UnitStream(raw);
    packet := [0x26, 0x00, |payload| % 256, |payload| / 256 % 256];
    packet := packet + payload;
    packet := packet + [0x0D, 0x05];
  }

  lemma StreamStep(done: seq<Byte>, raw: seq<int>, i: nat)
    requires i < |raw|
    ensures done + UnitStream(raw[i..]) == done + UnitBytes(Units(raw[i])) + UnitStream(raw[i + 1..])
  {
    assert raw[i..][1..] == raw[i + 1..];
    Reassociate(done, UnitBytes(Units(raw[i])), UnitStream(raw[i + 1..]));
  }

  method ReadTimings(body: seq<Byte>) returns (r: Result<seq<int>, CodecError>)
    ensures r == match ParseUnits(body, [])
                 case Err(e) => Err(e)
                 case Ok(us) => Ok(TimingsOf(us))
  {
    var timings, idx := [], 0;
    ghost var us: seq<nat> := [];
    assert body[0..] == body;
    while idx < |body|
      invariant 0 <= idx <= |body|
      invariant ParseUnits(body[idx..], us) == ParseUnits(body, [])
      invariant timings == TimingsOf(us)
    {
      ghost var rest := body[idx..];
      var b := body[idx];
      var units: nat;
      idx := idx + 1;
      if b == 0 {
        if idx + 1 >= |body| {
          if idx >= |body| && body[|body| - 1] == 0 {
            break;
          }
          return Err(TruncatedTiming);
        }
        units := BigUnits(body[idx], body[idx + 1]);
        idx := idx + 2;
        assert rest[3..] == body[idx..];
      } else {
        units := b;
        assert rest[1..] == body[idx..];
      }
      us := us + [units];
      var sign := if |timings| % 2 == 0 then 1 else -1;
      timings := timings + [sign * Microseconds(units)];
    }
    r := Ok(timings);
  }

  method DecodeBroadlinkToRaw(data: seq<Byte>) returns (r: Result<seq<int>, CodecError>)
    ensures r == Decode(data)
  {
    if data == [] {
      return Err(EmptyPayload);
    }
    if |data| < 6 {
      return Err(TooShort);
    }
    if data[0] != 0x26 {
      return Err(BadSignature);
    }
    var declared := Word(data[2], data[3]);
    var end := 4 + declared;
    if end > |data| {
      return Err(DeclaredLength);
    }
    var body := data[4..end];
    var trailer := LastTrailer(body);
    if trailer.Some? {
      body := body[..trailer.value];
    }
    body := StripZeros(body);
    if body == [] {
      return Err(EmptyBody);
    }
    r := ReadTimings(body);
    if r.Ok? && r.value == [] {
      r := Err(NoTimings);
    }
  }

  // ---------- quantisation ----------

  /** `r` is nearest to `num / den`; on a tie it is even. */
  predicate NearestEven(num: nat, den: nat, r: nat) {
    var off := 2 * Abs(num - r * den);
    off < den || (off == den && r % 2 == 0)
  }

  lemma OffsetCases(den: nat, q: nat, r: nat)
    requires den > 0
    ensures r == q ==> r * den == q * den
    ensures r == q + 1 ==> r * den == q * den + den
    ensures r >= q + 2 ==> r * den >= q * den + 2 * den
    ensures r < q ==> r * den <= q * den - den
  {
    var d := r - q;
    assert r * den == q * den + d * den;
    if d >= 2 {
      Scaled(den, 2, d);
    } else if d <= -1 {
      Scaled(den, d, -1);
    }
  }

  lemma Scaled(den: nat, a: int, b: int)
    requires a <= b
    ensures a * den <= b * den
  {
  }

  lemma NearestEvenCases(num: nat, den: nat, q: nat, rem: nat, x: nat, y: nat, r: nat)
    requires den > 0 && num == x + rem && rem < den
    requires (r == q && y == x) || (r == q + 1 && y == x + den) || (r >= q + 2 && y >= x + 2 * den) || (r < q && y <= x - den)
    ensures (2 * Abs(num - y) < den || (2 * Abs(num - y) == den && r % 2 == 0)) <==>
      r == RoundFrom(q, rem, den)
  {
  }

  /** Rounding is to the nearest integer, and to the even one on a tie; that determines it. */
  lemma RoundsToNearestEven(num: nat, den: nat, r: nat)
    requires den > 0
    ensures r == RoundHalfEven(num, den) <==> NearestEven(num, den, r)
  {
    var q, rem := num / den, num % den;
    OffsetCases(den, q, r);
    NearestEvenCases(num, den, q, rem, q * den, r * den, r);
  }

  /** Encoding meets a tie exactly at odd multiples of 4096 microseconds. */
  lemma EncodingTies(t: nat)
    ensures 2 * (t * UNIT_DEN % UNIT_NUM) == UNIT_NUM <==> t % UNIT_NUM == 4096
  {
    var k := t * UNIT_DEN / UNIT_NUM;
    if t * UNIT_DEN % UNIT_NUM == 4096 {
      assert 269 * t == 8192 * k + 4096;
      assert t == 8192 * (5573 * k + 2786 - 183 * t) + 4096;
    }
  }

  /** Decoding never meets a tie, because 269 is odd. */
  lemma DecodingNeverTies(u: nat)
    ensures 2 * (u * UNIT_NUM % UNIT_DEN) != UNIT_DEN
  {
  }

  lemma RoundingError(num: nat, den: nat)
    requires den > 0
    ensures var r := RoundHalfEven(num, den); 2 * num - den <= 2 * (r * den) <= 2 * num + den
  {
    var q, rem := num / den, num % den;
    assert num == q * den + rem;
    assert (q + 1) * den == q * den + den;
  }

  /** Quantisation moves a timing by at most 15 microseconds exactly from 15 microseconds up to 15 above
      what the largest unit count stands for. */
  lemma QuantisationBound(timing: int)
    ensures -15 <= Microseconds(Units(timing)) - Abs(timing) <= 15 <==> 15 <= Abs(timing) <= 1995787
  {
    var t := Abs(timing);
    RoundingError(t * UNIT_DEN, UNIT_NUM);
    RoundingError(Units(timing) * UNIT_NUM, UNIT_DEN);
  }

  /** Every unit count survives a trip through microseconds. */
  lemma UnitsAreFixed(u: nat, i: nat)
    requires 1 <= u <= MAX_UNITS
    ensures Units(Signed(i, Microseconds(u))) == u
  {
    var us := Microseconds(u);
    RoundingError(u * UNIT_NUM, UNIT_DEN);
    assert Abs(Signed(i, us)) == us;
    var e := us * UNIT_DEN - u * UNIT_NUM;
    assert -134 <= e <= 134;
  }

  // ---------- round trip ----------

  function UnitsOf(raw: seq<int>): (us: seq<nat>)
    ensures |us| == |raw|
  {
    seq(|raw|, i requires 0 <= i < |raw| => Units(raw[i]))
  }

  lemma TimingsOfUnits(raw: seq<int>)
    ensures TimingsOf(UnitsOf(raw)) == Quantised(raw)
  {
  }

  lemma {:induction false} ParsesStream(raw: seq<int>, done: seq<nat>)
    ensures ParseUnits(UnitStream(raw), done) == Ok(done + UnitsOf(raw))
    decreases |raw|
  {
    if raw == [] {
      assert done + UnitsOf(raw) == done;
    } else {
      var u, rest := Units(raw[0]), UnitStream(raw[1..]);
      assert (UnitBytes(u) + rest)[|UnitBytes(u)|..] == rest;
      ParsesStream(raw[1..], done + [u]);
      assert done + [u] + UnitsOf(raw[1..]) == done + UnitsOf(raw);
    }
  }

  /** Any proper prefix of a stream parses to fewer units, or not at all. */
  lemma {:induction false} ShorterStreamShorterList(raw: seq<int>, p: seq<Byte>, done: seq<nat>)
    requires p < UnitStream(raw)
    requires ParseUnits(p, done).Ok?
    ensures |ParseUnits(p, done).value| < |done| + |raw|
    decreases |raw|
  {
    if p != [] {
      var u, rest := Units(raw[0]), UnitStream(raw[1..]);
      var n := |UnitBytes(u)|;
      assert (UnitBytes(u) + rest)[n..] == rest;
      if n <= |p| {
        assert p[n..] < rest;
        ShorterStreamShorterList(raw[1..], p[n..], done + [u]);
      }
    }
  }

  /** What a caller can check on the encoded units: something to send, a length that fits the header,
      no byte pair that reads as a trailer, no zero at the end. */
  predicate Carries(raw: seq<int>) {
    var payload := UnitStream(raw);
    && payload != []
    && |payload| <= 0xFFFF
    && LastTrailer(payload) == None
    && payload[|payload| - 1] != 0
  }

  /** The payload length the two length bytes declare. */
  function Declared(n: nat): (m: nat)
    ensures m <= n && m <= 0xFFFF
    ensures m == n <==> n <= 0xFFFF
  {
    n % 0x10000
  }

  lemma LengthBytes(n: nat)
    ensures Word(n % 256, n / 256 % 256) == Declared(n)
  {
    var q, r := n / 0x10000, n % 0x10000;
    assert n / 256 == 256 * q + r / 256;
  }

  /** The part of the payload a packet declares. */
  function Window(raw: seq<int>): seq<Byte> {
    UnitStream(raw)[..Declared(|UnitStream(raw)|)]
  }

  lemma PacketLayout(lo: Byte, hi: Byte, payload: seq<Byte>, n: nat)
    requires n <= |payload|
    ensures var data := [0x26, 0x00, lo, hi] + payload + [0x0D, 0x05];
      && |data| == |payload| + 6
      && data[0] == 0x26 && data[2] == lo && data[3] == hi
      && data[4..4 + n] == payload[..n]
  {
  }

  lemma EncodedWindow(raw: seq<int>)
    ensures var data := Encode(raw);
      && |data| >= 6 && data[0] == 0x26
      && Word(data[2], data[3]) == Declared(|UnitStream(raw)|)
      && 4 + Declared(|UnitStream(raw)|) <= |data|
      && data[4..4 + Declared(|UnitStream(raw)|)] == Window(raw)
  {
    var payload := UnitStream(raw);
    var n := Declared(|payload|);
    LengthBytes(|payload|);
    PacketLayout(|payload| % 256, |payload| / 256 % 256, payload, n);
  }

  lemma DecodesDeclared(data: seq<Byte>, n: nat, window: seq<Byte>)
    requires |data| >= 6 && data[0] == 0x26 && Word(data[2], data[3]) == n && 4 + n <= |data|
    requires data[4..4 + n] == window
    ensures Decode(data) == FromWindow(window)
  {
  }

  lemma DecodesWindow(raw: seq<int>)
    ensures Decode(Encode(raw)) == FromWindow(Window(raw))
  {
    EncodedWindow(raw);
    DecodesDeclared(Encode(raw), Declared(|UnitStream(raw)|), Window(raw));
  }

  lemma BodyIsPrefix(window: seq<Byte>)
    ensures |Body(window)| <= |window| && Body(window) == window[..|Body(window)|]
    ensures Body(window) == window <==>
      LastTrailer(window) == None && (window == [] || window[|window| - 1] != 0)
  {
    var cut := match LastTrailer(window) case Some(at) => window[..at] case None => window;
    assert StripZeros(cut) == cut[..|StripZeros(cut)|];
  }

  lemma BodyOfPrefix(payload: seq<Byte>, m: nat)
    requires m <= |payload|
    ensures Body(payload[..m]) <= payload
    ensures m < |payload| ==> Body(payload[..m]) != payload
  {
    BodyIsPrefix(payload[..m]);
    PrefixOfPrefix(payload, m, |Body(payload[..m])|);
  }

  lemma BodyIsPrefixOfStream(raw: seq<int>)
    ensures Body(Window(raw)) <= UnitStream(raw)
    ensures |UnitStream(raw)| > 0xFFFF ==> Body(Window(raw)) != UnitStream(raw)
  {
    var payload := UnitStream(raw);
    var m := Declared(|payload|);
    BodyOfPrefix(payload, m);
  }

  lemma WholeBodyIffCarries(raw: seq<int>)
    ensures Body(Window(raw)) == UnitStream(raw) && UnitStream(raw) != [] <==> Carries(raw)
  {
    BodyIsPrefixOfStream(raw);
    BodyIsPrefix(UnitStream(raw));
    if |UnitStream(raw)| <= 0xFFFF {
      SmallWindow(raw);
    }
  }

  /** The packet round trip works exactly when the encoded units carry. */
  lemma RoundTrip(raw: seq<int>)
    ensures Decode(Encode(raw)) == Ok(Quantised(raw)) <==> Carries(raw)
  {
    var body := Body(Window(raw));
    DecodesWindow(raw);
    WholeBodyIffCarries(raw);
    BodyIsPrefixOfStream(raw);
    if body == UnitStream(raw) {
      ParsesStream(raw, []);
      assert [] + UnitsOf(raw) == UnitsOf(raw);
      TimingsOfUnits(raw);
    } else if ParseUnits(body, []).Ok? {
      ShorterStreamShorterList(raw, body, []);
    }
  }

  /** What a carried list looks like after the trip: same length, alternating signs, and within 15
      microseconds exactly the entries whose magnitude is in range. */
  lemma CarriedWithinBound(raw: seq<int>)
    requires Carries(raw) && Alternates(raw)
    ensures Decode(Encode(raw)).Ok?
    ensures var got := Decode(Encode(raw)).value;
      && |got| == |raw| && Alternates(got)
      && forall i :: 0 <= i < |raw| ==> (-15 <= got[i] - raw[i] <= 15 <==> 15 <= Abs(raw[i]) <= 1995787)
  {
    RoundTrip(raw);
    forall i | 0 <= i < |raw|
      ensures -15 <= Quantised(raw)[i] - raw[i] <= 15 <==> 15 <= Abs(raw[i]) <= 1995787
    {
      QuantisationBound(raw[i]);
    }
  }

  lemma {:induction false} QuantisingKeepsStream(raw: seq<int>, sent: seq<int>)
    requires |raw| == |sent| && forall i :: 0 <= i < |raw| ==> Units(raw[i]) == Units(sent[i])
    ensures UnitStream(raw) == UnitStream(sent)
  {
    if raw != [] {
      QuantisingKeepsStream(raw[1..], sent[1..]);
    }
  }

  /** Re-encoding what was decoded gives the same packet, so quantisation is a projection. */
  lemma ReencodesToSamePacket(raw: seq<int>)
    requires Carries(raw)
    ensures Decode(Encode(raw)).Ok?
    ensures Encode(Decode(Encode(raw)).value) == Encode(raw)
  {
    RoundTrip(raw);
    var sent := Quantised(raw);
    forall i | 0 <= i < |raw|
      ensures Units(sent[i]) == Units(raw[i])
    {
      UnitsAreFixed(Units(raw[i]), i);
    }
    QuantisingKeepsStream(raw, sent);
  }

  // ---------- the padding tolerance ----------

  /** The reader arrives at a lone zero that is the last byte. */
  predicate ReachesPadding(body: seq<Byte>) {
    && body != []
    && if body[0] == 0 then |body| == 1 || (|body| > 2 && ReachesPadding(body[3..]))
       else ReachesPadding(body[1..])
  }

  lemma {:induction false} PaddingEndsInZero(body: seq<Byte>)
    requires ReachesPadding(body)
    ensures body[|body| - 1] == 0
  {
    if body[0] != 0 {
      PaddingEndsInZero(body[1..]);
    } else if |body| > 1 {
      PaddingEndsInZero(body[3..]);
    }
  }

  /** The tolerance for a trailing zero is dead code: the strip before it leaves no such body. */
  lemma PaddingToleranceIsDead(window: seq<Byte>)
    ensures !ReachesPadding(Body(window))
  {
    if ReachesPadding(Body(window)) {
      PaddingEndsInZero(Body(window));
    }
  }

  // ---------- the gap that reads as a trailer ----------

  /** The unit count whose bytes are the trailer mark. */
  const TRAILER_UNITS := 0x0D05

  lemma {:induction false} StreamAppend(a: seq<int>, b: seq<int>)
    ensures UnitStream(a + b) == UnitStream(a) + UnitStream(b)
  {
    if a == [] {
      assert a + b == b;
    } else {
      assert (a + b)[1..] == a[1..] + b;
      StreamAppend(a[1..], b);
      Reassociate(UnitBytes(Units(a[0])), UnitStream(a[1..]), UnitStream(b));
    }
  }

  lemma TrailerUnitsEndBody(stream: seq<Byte>, window: seq<Byte>)
    requires stream != [] && stream[|stream| - 1] != 0 && window == stream + [0, 0x0D, 0x05]
    ensures Body(window) == stream
  {
    var cut := stream + [0];
    assert window[|window| - 2] == 0x0D && window[|window| - 1] == 0x05;
    assert LastTrailer(window) == Some(|window| - 2) && window[..|window| - 2] == cut;
    assert cut[|cut| - 1] == 0 && cut[..|cut| - 1] == stream;
    assert StripZeros(cut) == StripZeros(stream) == stream;
  }

  /** A last entry quantised to 0x0D05 is taken for the trailer and lost; the rest arrives, whatever
      byte pairs it contains. */
  lemma FinalTrailerGapIsDropped(raw: seq<int>, gap: int)
    requires UnitStream(raw) != [] && UnitStream(raw)[|UnitStream(raw)| - 1] != 0
    requires |UnitStream(raw)| + 3 <= 0xFFFF && Units(gap) == TRAILER_UNITS
    ensures Decode(Encode(raw + [gap])) == Ok(Quantised(raw))
  {
    GapBody(raw, gap);
    DecodesWindow(raw + [gap]);
    ParsesStream(raw, []);
    assert [] + UnitsOf(raw) == UnitsOf(raw);
    TimingsOfUnits(raw);
  }

  lemma GapBody(raw: seq<int>, gap: int)
    requires UnitStream(raw) != [] && UnitStream(raw)[|UnitStream(raw)| - 1] != 0
    requires |UnitStream(raw)| + 3 <= 0xFFFF && Units(gap) == TRAILER_UNITS
    ensures Body(Window(raw + [gap])) == UnitStream(raw)
  {
    GapStream(raw, gap);
    SmallWindow(raw + [gap]);
    TrailerUnitsEndBody(UnitStream(raw), Window(raw + [gap]));
  }

  lemma GapStream(raw: seq<int>, gap: int)
    requires Units(gap) == TRAILER_UNITS
    ensures UnitStream(raw + [gap]) == UnitStream(raw) + [0, 0x0D, 0x05]
  {
    StreamAppend(raw, [gap]);
    SingleUnit(gap);
  }

  lemma SingleUnit(timing: int)
    ensures UnitStream([timing]) == UnitBytes(Units(timing))
  {
    assert [timing][1..] == [];
  }

  lemma SmallWindow(raw: seq<int>)
    requires |UnitStream(raw)| <= 0xFFFF
    ensures Window(raw) == UnitStream(raw)
  {
  }
}
