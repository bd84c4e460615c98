/** The Tuya learn code: little-endian words inside a FastLZ stream, with a plausibility check. */
module TuyaLearn {
  import opened Wrappers
  import opened Payload
  import opened Integers
  import FastLz
  import TuyaChunk

  const MAX_ENTRIES := 8192
  const MAX_MICROSECONDS := 200000

  /** The plausibility check: 3 to 8192 entries, none zero, marks and spaces alternating. */
  predicate LooksLikeIr(timings: seq<int>) {
    && 3 <= |timings| <= MAX_ENTRIES
    && forall i :: 0 <= i < |timings| ==>
      timings[i] != 0 && timings[i] == Signed(i, Abs(timings[i])) && Abs(timings[i]) <= MAX_MICROSECONDS
  }

  function Encode(raw: seq<int>): Result<seq<Byte>, CodecError> {
    if raw == [] then Err(NothingToEncode) else Ok(FastLz.StreamBytes(FastLz.LiteralTokens(WordBytes(raw))))
  }

  function Decode(data: seq<Byte>): Result<seq<int>, CodecError> {
    if data == [] then Err(EmptyPayload)
    else
      match FastLz.Decompressed(data, [])
      case Err(e) => Err(e)
      case Ok(bytes) =>
        if |bytes| % 2 != 0 then Err(OddByteCount)
        else if LooksLikeIr(Words(bytes)) then Ok(Words(bytes))
        else Err(NotIrTimings)
  }

  // ---------- the source's loops ----------

  method CheckTimings(timings: seq<int>) returns (ok: bool)
    ensures ok <==> LooksLikeIr(timings)
  {
    if |timings| < 3 {
      return false;
    }
    if timings[0] <= 0 {
      assert timings[0] == Signed(0, Abs(timings[0])) ==> timings[0] == 0;
      return false;
    }
    if |timings| > MAX_ENTRIES {
      return false;
    }
    for i := 0 to |timings|
      invariant forall k :: 0 <= k < i ==>
        timings[k] != 0 && timings[k] == Signed(k, Abs(timings[k])) && Abs(timings[k]) <= MAX_MICROSECONDS
    {
      var val := timings[i];
      if val == 0 {
        return false;
      }
      if i % 2 == 0 && val < 0 {
        return false;
      }
      if i % 2 == 1 && val > 0 {
        return false;
      }
      if Abs(val) > MAX_MICROSECONDS {
        return false;
      }
    }
    ok := true;
  }

  method EncodeRawToTuyaLearn(raw: seq<int>) returns (r: Result<seq<Byte>, CodecError>)
    ensures r == Encode(raw)
  {
    if raw == [] {
      return Err(NothingToEncode);
    }
    var payload := FlattenTimings(raw);
    var compressed := FastLz.CompressLiteral(payload);
    r := Ok(compressed);
  }

  method DecodeTuyaLearnToRaw(data: seq<Byte>) returns (r: Result<seq<int>, CodecError>)
    ensures r == Decode(data)
  {
    if data == [] {
      return Err(EmptyPayload);
    }
    var inflated := FastLz.FastLzDecompress(data);
    if inflated.Err? {
      return Err(inflated.error);
    }
    if |inflated.value| % 2 != 0 {
      return Err(OddByteCount);
    }
    var timings := RebuildTimings(inflated.value);
    var plausible := CheckTimings(timings);
    if !plausible {
      return Err(NotIrTimings);
    }
    r := Ok(timings);
  }

  /** What passes the check: 3 to 8192 entries, marks of 1 to 200000 microseconds at even places, spaces as
      long at odd ones. */
  lemma PlausibleExactly(timings: seq<int>)
    ensures LooksLikeIr(timings) <==>
      3 <= |timings| <= 8192 && forall i :: 0 <= i < |timings| ==> PlausibleAt(i, timings[i])
  {
    assert forall i: nat, t :: PlausibleAt(i, t) <==> t != 0 && t == Signed(i, Abs(t)) && Abs(t) <= MAX_MICROSECONDS;
  }

  predicate PlausibleAt(i: nat, timing: int) {
    if i % 2 == 0 then 1 <= timing <= 200000 else -200000 <= timing <= -1
  }

  // ---------- round trip ----------

  lemma SaturatedPassesCheck(raw: seq<int>)
    ensures LooksLikeIr(Saturated(raw)) <==>
      3 <= |raw| <= 8192 && forall i :: 0 <= i < |raw| ==> raw[i] != 0
  {
    var s := Saturated(raw);
    if LooksLikeIr(s) {
      forall i | 0 <= i < |raw|
        ensures raw[i] != 0
      {
        assert s[i] != 0;
      }
    }
  }

  /** The learn decoder gives an encoded list back, clamped and re-signed, exactly when it has
      3 to 8192 entries and no zero; otherwise the plausibility check refuses it. */
  lemma RoundTrip(raw: seq<int>)
    requires raw != []
    ensures Encode(raw).Ok?
    ensures Decode(Encode(raw).value) ==
      if 3 <= |raw| <= 8192 && (forall i :: 0 <= i < |raw| ==> raw[i] != 0)
      then Ok(Saturated(raw)) else Err(NotIrTimings)
  {
    FastLz.DecompressInvertsCompress(WordBytes(raw));
    WordsInvertWordBytes(raw);
    SaturatedPassesCheck(raw);
  }

  /** 3 to 8192 words, none of them zero. */
  ghost predicate IrWords(bytes: seq<Byte>)
    requires |bytes| % 2 == 0
  {
    6 <= |bytes| <= 16384 && forall i :: 0 <= i < |bytes| / 2 ==> !(bytes[2 * i] == 0 == bytes[2 * i + 1])
  }

  /** The decoder accepts exactly the streams that inflate to 3 to 8192 whole words, none of them zero;
      signs and magnitudes cannot fail the check, because they are rebuilt from 16-bit words. */
  lemma AcceptsExactly(data: seq<Byte>, raw: seq<int>)
    ensures Decode(data) == Ok(raw) <==>
      && data != [] && FastLz.Decompressed(data, []).Ok?
      && var bytes := FastLz.Decompressed(data, []).value;
      && |bytes| % 2 == 0 && IrWords(bytes) && raw == Words(bytes)
  {
    if data != [] && FastLz.Decompressed(data, []).Ok? && |FastLz.Decompressed(data, []).value| % 2 == 0 {
      var bytes := FastLz.Decompressed(data, []).value;
      PlausibleWords(bytes);
    }
  }

  /** The encoder refuses the empty list only, and each error of the decoder names its cause. */
  lemma Refusals(raw: seq<int>, data: seq<Byte>)
    ensures Encode(raw) == Err(NothingToEncode) <==> raw == []
    ensures Encode(raw).Err? ==> raw == []
    ensures Decode(data) == Err(EmptyPayload) <==> data == []
    ensures data != [] && FastLz.Decompressed(data, []).Err? ==> Decode(data) == Err(FastLz.Decompressed(data, []).error)
    ensures data != [] && FastLz.Decompressed(data, []).Ok? ==>
      var bytes := FastLz.Decompressed(data, []).value;
      && (Decode(data) == Err(OddByteCount) <==> |bytes| % 2 == 1)
      && (Decode(data) == Err(NotIrTimings) <==> |bytes| % 2 == 0 && !IrWords(bytes))
  {
    if FastLz.Decompressed(data, []).Ok? && |FastLz.Decompressed(data, []).value| % 2 == 0 {
      PlausibleWords(FastLz.Decompressed(data, []).value);
    }
    DecompressErrors(data, []);
  }

  lemma {:induction false} DecompressErrors(data: seq<Byte>, out: seq<Byte>)
    ensures FastLz.Decompressed(data, out).Err? ==>
      FastLz.Decompressed(data, out).error in {LiteralLength, ExtendedLength, MissingDistance, BackrefWindow}
    decreases |data|
  {
    if data != [] && FastLz.ReadToken(data).Ok? {
      var (t, n) := FastLz.ReadToken(data).value;
      if !(t.Copy? && t.distance > |out|) {
        DecompressErrors(data[n..], FastLz.Apply(out, t));
      }
    }
  }

  lemma PlausibleWords(bytes: seq<Byte>)
    requires |bytes| % 2 == 0
    ensures LooksLikeIr(Words(bytes)) <==> IrWords(bytes)
  {
    var raw := Words(bytes);
    forall i | 0 <= i < |raw|
      ensures raw[i] == Signed(i, Abs(raw[i])) && Abs(raw[i]) <= MAX_MICROSECONDS
      ensures raw[i] == 0 <==> bytes[2 * i] == 0 == bytes[2 * i + 1]
    {
      assert raw[i] == Signed(i, Word(bytes[2 * i], bytes[2 * i + 1]));
    }
  }

  /** Whatever the learn decoder returns, the chunk coder carries unchanged. */
  lemma DecodedSurvivesChunkTransport(data: seq<Byte>, raw: seq<int>)
    requires Decode(data) == Ok(raw)
    ensures TuyaChunk.Decode(TuyaChunk.Encode(raw)) == Ok(raw)
  {
    var bytes := FastLz.Decompressed(data, []).value;
    forall i | 0 <= i < |raw|
      ensures raw[i] == Signed(i, Abs(raw[i])) && Abs(raw[i]) <= 0xFFFF
    {
      assert raw[i] == Signed(i, Word(bytes[2 * i], bytes[2 * i + 1]));
    }
    TuyaChunk.RoundTrip(raw);
  }
}
