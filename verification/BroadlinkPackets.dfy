/** Which Broadlink packets decode to what, stated on the bytes of the packet: where the timings end,
    how units are spelled, and which refusals there are. */
module BroadlinkPackets {
  import opened Wrappers
  import opened Payload
  import opened Integers
  import opened Sequences
  import opened Broadlink

  // ---------- where the timings end ----------

  ghost predicate MarkAt(bytes: seq<Byte>, i: int) {
    0 <= i && i + 1 < |bytes| && bytes[i] == 0x0D && bytes[i + 1] == 0x05
  }

  ghost predicate NoMark(bytes: seq<Byte>) {
    forall i :: 0 <= i < |bytes| ==> !MarkAt(bytes, i)
  }

  lemma TailEntry(payload: seq<Byte>, tail: seq<Byte>, i: nat)
    requires |payload| + 2 <= i < |payload| + 2 + |tail|
    ensures (payload + [0x0D, 0x05] + tail)[i] == tail[i - |payload| - 2]
  {
  }

  /** The last mark is found, whatever stands before it, if none follows. */
  lemma MarkIsFound(payload: seq<Byte>, tail: seq<Byte>)
    requires NoMark(tail)
    ensures LastTrailer(payload + [0x0D, 0x05] + tail) == Some(|payload|)
  {
    var window, at := payload + [0x0D, 0x05] + tail, |payload|;
    assert window[at] == 0x0D && window[at + 1] == 0x05;
    var found := LastTrailer(window);
    if found.Some? && found.value > at + 1 {
      TailEntry(payload, tail, found.value);
      TailEntry(payload, tail, found.value + 1);
      assert MarkAt(tail, found.value - at - 2);
    }
  }

  lemma {:induction false} StripKeeps(payload: seq<Byte>, zeros: seq<Byte>)
    requires payload != [] && payload[|payload| - 1] != 0
    requires forall i :: 0 <= i < |zeros| ==> zeros[i] == 0
    ensures StripZeros(payload + zeros) == payload
    decreases |zeros|
  {
    if zeros == [] {
      assert payload + zeros == payload;
    } else {
      var fewer := zeros[..|zeros| - 1];
      assert (payload + zeros)[..|payload + zeros| - 1] == payload + fewer;
      StripKeeps(payload, fewer);
    }
  }

  /** The timings end where the zeros before the last mark begin; anything without a mark may follow. */
  lemma BodyEndsAtMark(payload: seq<Byte>, zeros: seq<Byte>, tail: seq<Byte>)
    requires payload != [] && payload[|payload| - 1] != 0
    requires forall i :: 0 <= i < |zeros| ==> zeros[i] == 0
    requires NoMark(tail)
    ensures Body(payload + zeros + [0x0D, 0x05] + tail) == payload
  {
    var window := payload + zeros + [0x0D, 0x05] + tail;
    MarkIsFound(payload + zeros, tail);
    assert window[..|payload + zeros|] == payload + zeros;
    StripKeeps(payload, zeros);
  }

  /** Without a mark only zeros are taken away. */
  lemma BodyWithoutMark(payload: seq<Byte>, zeros: seq<Byte>)
    requires payload != [] && payload[|payload| - 1] != 0
    requires forall i :: 0 <= i < |zeros| ==> zeros[i] == 0
    requires NoMark(payload + zeros)
    ensures Body(payload + zeros) == payload
  {
    var window := payload + zeros;
    var found := LastTrailer(window);
    if found.Some? {
      assert MarkAt(window, found.value);
    }
    StripKeeps(payload, zeros);
  }

  /** A packet with any declared window. */
  function Packet(window: seq<Byte>, second: Byte, rest: seq<Byte>): seq<Byte> {
    [0x26, second, |window| % 256, |window| / 256 % 256] + window + rest
  }

  lemma PacketDecodes(window: seq<Byte>, second: Byte, rest: seq<Byte>)
    requires |window| <= 0xFFFF && |window| + |rest| >= 2
    ensures Decode(Packet(window, second, rest)) == FromWindow(window)
  {
    var data := Packet(window, second, rest);
    LengthBytes(|window|);
    assert data[4..4 + |window|] == window;
  }

  /** A packet that declares its trailer, zeros before it and whatever follows it decodes to the same
      timings as one that declares the units only. */
  lemma DeclaredTrailerDecodes(raw: seq<int>, zeros: seq<Byte>, tail: seq<Byte>, second: Byte, rest: seq<Byte>)
    requires Carries(raw) && NoMark(tail) && forall i :: 0 <= i < |zeros| ==> zeros[i] == 0
    requires |UnitStream(raw)| + |zeros| + 2 + |tail| <= 0xFFFF
    ensures Decode(Packet(UnitStream(raw) + zeros + [0x0D, 0x05] + tail, second, rest)) == Ok(Quantised(raw))
    ensures Decode(Packet(UnitStream(raw) + zeros + [0x0D, 0x05] + tail, second, rest)) == Decode(Encode(raw))
  {
    var payload := UnitStream(raw);
    BodyEndsAtMark(payload, zeros, tail);
    PacketDecodes(payload + zeros + [0x0D, 0x05] + tail, second, rest);
    BodyDecodes(raw, payload + zeros + [0x0D, 0x05] + tail);
    RoundTrip(raw);
  }

  lemma BodyDecodes(raw: seq<int>, window: seq<Byte>)
    requires raw != [] && Body(window) == UnitStream(raw) != []
    ensures FromWindow(window) == Ok(Quantised(raw))
  {
    ParsesStream(raw, []);
    assert [] + UnitsOf(raw) == UnitsOf(raw);
    TimingsOfUnits(raw);
  }

  // ---------- how units are spelled ----------

  /** One byte for a count that is not zero, or a zero and two bytes for any count. */
  datatype Unit = Short(count: nat) | Long(count: nat)

  predicate Valid(u: Unit) {
    match u
    case Short(count) => 1 <= count <= 255
    case Long(count) => count <= 65535
  }

  function Bytes(u: Unit): seq<Byte>
    requires Valid(u)
  {
    match u
    case Short(count) => [count]
    case Long(count) => [0, count / 256, count % 256]
  }

  predicate AllValid(us: seq<Unit>) {
    forall u :: u in us ==> Valid(u)
  }

  function Spelled(us: seq<Unit>): seq<Byte>
    requires AllValid(us)
  {
    if us == [] then [] else Bytes(us[0]) + Spelled(us[1..])
  }

  function Counts(us: seq<Unit>): (r: seq<nat>)
    ensures |r| == |us|
  {
    if us == [] then [] else [us[0].count] + Counts(us[1..])
  }

  lemma ParseStep(u: Unit, rest: seq<Byte>, done: seq<nat>)
    requires Valid(u)
    ensures ParseUnits(Bytes(u) + rest, done) == ParseUnits(rest, done + [u.count])
  {
    var body := Bytes(u) + rest;
    assert body[|Bytes(u)|..] == rest;
    if u.Long? {
      assert body[0] == 0 && body[1] == u.count / 256 && body[2] == u.count % 256;
    }
  }

  lemma {:induction false} ParsesSpelled(us: seq<Unit>, done: seq<nat>)
    requires AllValid(us)
    ensures ParseUnits(Spelled(us), done) == Ok(done + Counts(us))
    decreases |us|
  {
    if us == [] {
      assert done + [] == done;
    } else {
      ParseStep(us[0], Spelled(us[1..]), done);
      ParsesSpelled(us[1..], done + [us[0].count]);
      Reassociate(done, [us[0].count], Counts(us[1..]));
    }
  }

  lemma LongBytes(hi: Byte, lo: Byte)
    ensures Valid(Long(BigUnits(hi, lo))) && Bytes(Long(BigUnits(hi, lo))) == [0, hi, lo]
  {
  }

  lemma FrontOfThree(body: seq<Byte>)
    requires |body| >= 3
    ensures body == [body[0], body[1], body[2]] + body[3..]
  {
  }

  lemma FirstUnit(body: seq<Byte>, done: seq<nat>) returns (u: Unit, rest: seq<Byte>)
    requires body != [] && ParseUnits(body, done).Ok? && !ReachesPadding(body)
    ensures Valid(u) && body == Bytes(u) + rest && !ReachesPadding(rest)
  {
    if body[0] == 0 {
      LongBytes(body[1], body[2]);
      FrontOfThree(body);
      u, rest := Long(BigUnits(body[1], body[2])), body[3..];
    } else {
      u, rest := Short(body[0]), body[1..];
    }
  }

  lemma {:induction false} ParsedIsSpelled(body: seq<Byte>, done: seq<nat>) returns (us: seq<Unit>)
    requires ParseUnits(body, done).Ok? && !ReachesPadding(body)
    ensures AllValid(us) && Spelled(us) == body && ParseUnits(body, done) == Ok(done + Counts(us))
    decreases |body|
  {
    if body == [] {
      us := [];
      assert done + [] == done;
    } else {
      var u, rest := FirstUnit(body, done);
      ParseStep(u, rest, done);
      var more := ParsedIsSpelled(rest, done + [u.count]);
      us := [u] + more;
      assert us[1..] == more;
      Reassociate(done, [u.count], Counts(more));
    }
  }

  ghost predicate Reads(us: seq<Unit>, window: seq<Byte>, raw: seq<int>) {
    AllValid(us) && us != [] && Spelled(us) == Body(window) && raw == TimingsOf(Counts(us))
  }

  lemma SpelledIsEmpty(us: seq<Unit>)
    requires AllValid(us)
    ensures Spelled(us) == [] <==> us == []
  {
  }

  /** A window is accepted exactly if its body spells units, and gives their times with alternating
      signs. */
  lemma ReadsExactlySpelled(window: seq<Byte>, raw: seq<int>)
    ensures FromWindow(window) == Ok(raw) <==> exists us :: Reads(us, window, raw)
  {
    var body := Body(window);
    PaddingToleranceIsDead(window);
    if FromWindow(window) == Ok(raw) {
      var us := ParsedIsSpelled(body, []);
      assert [] + Counts(us) == Counts(us);
      assert Reads(us, window, raw);
    }
    forall us | Reads(us, window, raw)
      ensures FromWindow(window) == Ok(raw)
    {
      SpelledIsEmpty(us);
      ParsesSpelled(us, []);
      assert [] + Counts(us) == Counts(us);
    }
  }

  // ---------- refusals ----------

  lemma {:induction false} ParseError(body: seq<Byte>, done: seq<nat>)
    ensures ParseUnits(body, done).Err? ==> ParseUnits(body, done) == Err(TruncatedTiming)
    ensures ParseUnits(body, done).Ok? ==> |ParseUnits(body, done).value| >= |done|
    ensures ParseUnits(body, done).Ok? && body != [] && body != [0] ==> |ParseUnits(body, done).value| > |done|
    decreases |body|
  {
    if body != [] {
      if body[0] != 0 {
        ParseError(body[1..], done + [body[0] as int]);
      } else if |body| > 2 {
        ParseError(body[3..], done + [BigUnits(body[1], body[2])]);
      }
    }
  }

  /** A window is refused only because nothing is left of it or its last long unit is cut short; the
      check for an empty list is never reached. */
  lemma WindowRefusals(window: seq<Byte>)
    ensures FromWindow(window) == Err(EmptyBody) <==> Body(window) == []
    ensures FromWindow(window).Err? ==> FromWindow(window) in {Err(EmptyBody), Err(TruncatedTiming)}
    ensures FromWindow(window) == Err(TruncatedTiming) <==>
      Body(window) != [] && !exists us :: AllValid(us) && Spelled(us) == Body(window)
  {
    var body := Body(window);
    PaddingToleranceIsDead(window);
    ParseError(body, []);
    if ParseUnits(body, []).Ok? {
      var us := ParsedIsSpelled(body, []);
    }
    forall us | AllValid(us) && Spelled(us) == body
      ensures ParseUnits(body, []).Ok?
    {
      ParsesSpelled(us, []);
    }
  }

  /** Each error of the decoder names its own cause. */
  lemma PacketRefusals(data: seq<Byte>)
    ensures Decode(data) == Err(EmptyPayload) <==> data == []
    ensures Decode(data) == Err(TooShort) <==> 1 <= |data| <= 5
    ensures Decode(data) == Err(BadSignature) <==> |data| >= 6 && data[0] != 0x26
    ensures Decode(data) == Err(DeclaredLength) <==>
      |data| >= 6 && data[0] == 0x26 && 4 + data[2] as int + 256 * data[3] as int > |data|
    ensures Decode(data) != Err(NoTimings)
  {
    if |data| >= 6 && data[0] == 0x26 && 4 + Word(data[2], data[3]) <= |data| {
      WindowRefusals(data[4..4 + Word(data[2], data[3])]);
    }
  }

  // ---------- what the encoder writes ----------

  /** A packet's frame: signature, zero, declared length modulo 65536, units, trailer. */
  lemma EncodedFrame(raw: seq<int>)
    ensures var data, n := Encode(raw), |UnitStream(raw)|;
      && |data| == n + 6 && data[0] == 0x26 && data[1] == 0
      && data[2] as int + 256 * data[3] as int == n % 65536
      && LastTrailer(data) == Some(|data| - 2)
  {
    var data := Encode(raw);
    LengthBytes(|UnitStream(raw)|);
    assert MarkAt(data, |data| - 2);
  }

  function LongUnits(raw: seq<int>): nat {
    if raw == [] then 0 else (if Units(raw[0]) > 255 then 1 else 0) + LongUnits(raw[1..])
  }

  /** Units above 255 take three bytes, all others one. */
  lemma {:induction false} StreamSize(raw: seq<int>)
    ensures |UnitStream(raw)| == |raw| + 2 * LongUnits(raw)
    decreases |raw|
  {
    if raw != [] {
      StreamSize(raw[1..]);
    }
  }

  // ---------- which counts stand for which times ----------

  /** The count a timing is sent as is a nearest one of those that can be sent: no other comes closer, in
      multiples of 1/269 microsecond. */
  lemma UnitsAreNearest(timing: int, u: nat)
    requires 1 <= u <= 65535
    ensures Abs(269 * Abs(timing) - 8192 * Units(timing)) <= Abs(269 * Abs(timing) - 8192 * u)
  {
    RoundingError(Abs(timing) * UNIT_DEN, UNIT_NUM);
  }

  /** The microseconds a count is read as are the nearest ones. */
  lemma MicrosecondsAreNearest(u: nat, other: nat)
    ensures other != Microseconds(u) ==> Abs(269 * Microseconds(u) - 8192 * u) < Abs(269 * other - 8192 * u)
  {
    RoundingError(u * UNIT_NUM, UNIT_DEN);
    CloserThanHalf(8192 * u, Microseconds(u), other);
  }

  lemma CloserThanHalf(x: int, near: int, other: int)
    requires -134 <= 269 * near - x <= 134
    ensures other != near ==> Abs(269 * near - x) < Abs(269 * other - x)
  {
    if other > near {
      assert 269 * other >= 269 * near + 269;
    } else if other < near {
      assert 269 * other <= 269 * near - 269;
    }
  }
}
