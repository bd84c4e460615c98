/** What the Tuya and Broadlink coders share: bytes, errors, and the passage between signed
    timings and little-endian 16-bit words. */
module Payload {
  import opened Integers

  type Byte = x: int | 0 <= x < 256

  datatype CodecError =
    | NothingToEncode
    | EmptyPayload
    | ChunkLength
    | OddByteCount
    | LiteralLength
    | ExtendedLength
    | MissingDistance
    | BackrefWindow
    | EmptyBackref
    | NotIrTimings
    | TooShort
    | BadSignature
    | DeclaredLength
    | EmptyBody
    | TruncatedTiming
    | NoTimings

  /** Magnitude clamped to 16 bits. */
  function ToU16(value: int): (r: nat)
    ensures r <= 0xFFFF
  {
    Min(Abs(value), 0xFFFF)
  }

  /** Marks sit at even positions and are positive, spaces at odd positions and are negative. */
  function Signed(i: nat, magnitude: int): int {
    if i % 2 == 0 then magnitude else -magnitude
  }

  /** The list with every sign rebuilt from its position and every magnitude clamped. */
  function Saturated(raw: seq<int>): (r: seq<int>)
    ensures |r| == |raw|
  {
    seq(|raw|, i requires 0 <= i < |raw| => Signed(i, ToU16(raw[i])))
  }

  ghost predicate Alternates(raw: seq<int>) {
    forall i :: 0 <= i < |raw| ==> raw[i] == Signed(i, Abs(raw[i]))
  }

  ghost predicate FitsU16(raw: seq<int>) {
    forall i :: 0 <= i < |raw| ==> Abs(raw[i]) <= 0xFFFF
  }

  /** Two little-endian bytes per timing. */
  function WordBytes(raw: seq<int>): (r: seq<Byte>)
    ensures |r| == 2 * |raw|
  {
    seq(2 * |raw|, k requires 0 <= k < 2 * |raw| =>
      if k % 2 == 0 then ToU16(raw[k / 2]) % 256 else ToU16(raw[k / 2]) / 256)
  }

  /** The 16-bit word of a low and a high byte. */
  function Word(lo: int, hi: int): int {
    lo + 256 * hi
  }

  /** The timings an even number of bytes stands for. */
  function Words(bytes: seq<Byte>): (r: seq<int>)
    requires |bytes| % 2 == 0
    ensures |r| == |bytes| / 2
  {
    seq(|bytes| / 2, i requires 0 <= i < |bytes| / 2 => Signed(i, Word(bytes[2 * i], bytes[2 * i + 1])))
  }

  lemma WordsInvertWordBytes(raw: seq<int>)
    ensures Words(WordBytes(raw)) == Saturated(raw)
  {
    var b := WordBytes(raw);
    forall i | 0 <= i < |raw|
      ensures Words(b)[i] == Saturated(raw)[i]
    {
      assert (2 * i) / 2 == i && (2 * i + 1) / 2 == i && (2 * i + 1) % 2 == 1;
      assert b[2 * i] == ToU16(raw[i]) % 256 && b[2 * i + 1] == ToU16(raw[i]) / 256;
    }
  }

  /** Low byte first, and all ones for a magnitude beyond 16 bits. */
  lemma LittleEndian(raw: seq<int>, i: nat)
    requires i < |raw|
    ensures var magnitude: int := if raw[i] < 0 then -raw[i] else raw[i];
      WordBytes(raw)[2 * i] as int + 256 * WordBytes(raw)[2 * i + 1] as int == if magnitude <= 65535 then magnitude else 65535
  {
    assert (2 * i) / 2 == i && (2 * i + 1) / 2 == i && (2 * i + 1) % 2 == 1;
  }

  /** Any even number of bytes survives the passage through timings. */
  lemma WordBytesInvertWords(bytes: seq<Byte>)
    requires |bytes| % 2 == 0
    ensures WordBytes(Words(bytes)) == bytes
  {
    var raw := Words(bytes);
    forall k | 0 <= k < |bytes|
      ensures WordBytes(raw)[k] == bytes[k]
    {
      var i := k / 2;
      assert raw[i] == Signed(i, Word(bytes[2 * i], bytes[2 * i + 1]));
      WordParts(bytes[2 * i], bytes[2 * i + 1], raw[i]);
    }
  }

  lemma WordParts(lo: Byte, hi: Byte, timing: int)
    requires timing == Word(lo, hi) || timing == -Word(lo, hi)
    ensures ToU16(timing) % 256 == lo && ToU16(timing) / 256 == hi
  {
  }

  /** Clamping changes nothing exactly on alternating lists that fit 16 bits. */
  lemma SaturatedIsIdentity(raw: seq<int>)
    ensures Saturated(raw) == raw <==> Alternates(raw) && FitsU16(raw)
  {
    if Saturated(raw) == raw {
      forall i | 0 <= i < |raw|
        ensures raw[i] == Signed(i, Abs(raw[i])) && Abs(raw[i]) <= 0xFFFF
      {
        assert Saturated(raw)[i] == raw[i];
      }
    }
  }

  /** The byte-flattening loop both Tuya encoders share. */
  method FlattenTimings(raw: seq<int>) returns (payload: seq<Byte>)
    ensures payload == WordBytes(raw)
  {
    payload := [];
    for i := 0 to |raw|
      invariant payload == WordBytes(raw[..i])
    {
      var val := ToU16(raw[i]);
      payload := payload + [val % 256, val / 256];
    }
    assert raw[..|raw|] == raw;
  }

  /** The loop that rebuilds signed timings from little-endian words. */
  method RebuildTimings(bytes: seq<Byte>) returns (timings: seq<int>)
    requires |bytes| % 2 == 0
    ensures timings == Words(bytes)
  {
    timings := [];
    for i := 0 to |bytes| / 2
      invariant timings == Words(bytes)[..i]
    {
      var val: int := Word(bytes[2 * i], bytes[2 * i + 1]);
      timings := timings + [if |timings| % 2 == 0 then val else -val];
    }
  }
}
