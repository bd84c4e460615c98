/** The payload detector: which of the three base64 formats a byte string is taken for. */
module AutoDetect {
  import opened Wrappers
  import opened Payload
  import Broadlink
  import FastLz
  import TuyaChunk
  import TuyaLearn

  datatype Encoding = TuyaBase64 | TuyaLearnBase64 | BroadlinkBase64

  datatype Decoded = Decoded(timings: seq<int>, encoding: Encoding)

  predicate LooksLikeBroadlink(data: seq<Byte>) {
    && |data| >= 6
    && data[0] == 0x26
    && Word(data[2], data[3]) > 0
    && 4 + Word(data[2], data[3]) <= |data|
  }

  function Tagged(r: Result<seq<int>, CodecError>, encoding: Encoding): Result<Decoded, CodecError> {
    match r
    case Ok(timings) => Ok(Decoded(timings, encoding))
    case Err(e) => Err(e)
  }

  function Auto(data: seq<Byte>): Result<Decoded, CodecError> {
    if LooksLikeBroadlink(data) then Tagged(Broadlink.Decode(data), BroadlinkBase64)
    else if TuyaChunk.Decode(data).Ok? then Tagged(TuyaChunk.Decode(data), TuyaBase64)
    else if TuyaLearn.Decode(data).Ok? then Tagged(TuyaLearn.Decode(data), TuyaLearnBase64)
    else Tagged(Broadlink.Decode(data), BroadlinkBase64)
  }

  /** The detector's cascade; a Broadlink signature commits to that decoder even if it then fails. */
  method DecodeAuto(data: seq<Byte>) returns (r: Result<Decoded, CodecError>)
    ensures r == Auto(data)
  {
    var attempt: Result<seq<int>, CodecError>;
    if LooksLikeBroadlink(data) {
      attempt := Broadlink.DecodeBroadlinkToRaw(data);
      return Tagged(attempt, BroadlinkBase64);
    }
    attempt := TuyaChunk.DecodeTuyaToRaw(data);
    if attempt.Ok? {
      return Tagged(attempt, TuyaBase64);
    }
    attempt := TuyaLearn.DecodeTuyaLearnToRaw(data);
    if attempt.Ok? {
      return Tagged(attempt, TuyaLearnBase64);
    }
    attempt := Broadlink.DecodeBroadlinkToRaw(data);
    r := Tagged(attempt, BroadlinkBase64);
  }

  /** The two Tuya encoders are one function on non-empty input. */
  lemma TuyaEncodersAgree(raw: seq<int>)
    requires raw != []
    ensures TuyaLearn.Encode(raw) == Ok(TuyaChunk.Encode(raw))
  {
    FastLz.LiteralTokensAreBlocks(WordBytes(raw));
  }

  /** A stream whose block headers are all below 32 is never taken for Broadlink; if its byte count is
      even it is reported as chunked with the words both Tuya decoders extract. */
  lemma LiteralStreamsAreChunked(data: seq<Byte>)
    requires data != [] && FastLz.LiteralHeaders(data)
    ensures !LooksLikeBroadlink(data)
    ensures TuyaLearn.Decode(data).Ok? ==> Auto(data) == Ok(Decoded(TuyaLearn.Decode(data).value, TuyaBase64))
    ensures Auto(data).Ok? ==> Auto(data).value.encoding == TuyaBase64
    ensures Auto(data).Ok? <==> TuyaChunk.Decode(data).Ok?
  {
    FastLz.AgreesWithChunks(data, []);
  }

  /** Tuya output of either encoder is always reported as chunked, with the right timings. */
  lemma TuyaOutputDetected(raw: seq<int>)
    requires raw != []
    ensures Auto(TuyaChunk.Encode(raw)) == Ok(Decoded(Saturated(raw), TuyaBase64))
    ensures TuyaLearn.Encode(raw).Ok? && Auto(TuyaLearn.Encode(raw).value) == Ok(Decoded(Saturated(raw), TuyaBase64))
  {
    TuyaEncodersAgree(raw);
    FastLz.FramesHaveLiteralHeaders(WordBytes(raw));
    LiteralStreamsAreChunked(TuyaChunk.Encode(raw));
    TuyaChunk.RoundTrip(raw);
  }

  /** Broadlink output commits to the Broadlink decoder exactly when its declared length is not zero,
      in particular for every non-empty payload below 65536 bytes. */
  lemma BroadlinkOutputDetected(raw: seq<int>)
    ensures LooksLikeBroadlink(Broadlink.Encode(raw)) <==> |Broadlink.UnitStream(raw)| % 0x10000 != 0
    ensures |Broadlink.UnitStream(raw)| % 0x10000 != 0 ==>
      Auto(Broadlink.Encode(raw)) == Tagged(Broadlink.Decode(Broadlink.Encode(raw)), BroadlinkBase64)
  {
    Broadlink.EncodedWindow(raw);
  }

  /** The detector returns a list sent through the Broadlink encoder exactly when the encoder's own
      decoder does. */
  lemma BroadlinkRoundTripThroughDetector(raw: seq<int>)
    ensures Auto(Broadlink.Encode(raw)) == Ok(Decoded(Broadlink.Quantised(raw), BroadlinkBase64))
      <==> Broadlink.Carries(raw)
  {
    Broadlink.RoundTrip(raw);
    BroadlinkOutputDetected(raw);
  }

  // ---------- what is reported as what ----------

  /** The bytes declare a Broadlink window of at least one byte that lies inside them. */
  predicate DeclaresWindow(data: seq<Byte>) {
    && |data| >= 6 && data[0] == 0x26
    && 1 <= data[2] as int + 256 * data[3] as int <= |data| - 4
  }

  lemma WindowIsSeen(data: seq<Byte>)
    ensures LooksLikeBroadlink(data) <==> DeclaresWindow(data)
  {
  }

  /** Whatever the Broadlink decoder accepts declares a window, so the detector has committed to that
      decoder already and its last attempt never succeeds. */
  lemma BroadlinkDeclaresWindow(data: seq<Byte>)
    ensures Broadlink.Decode(data).Ok? ==> DeclaresWindow(data)
  {
    if |data| >= 6 && data[0] == 0x26 && Word(data[2], data[3]) == 0 {
      assert data[4..4] == [];
    }
  }

  /** A learn code starts with a literal, so it never looks like a Broadlink packet. */
  lemma LearnStartsWithLiteral(data: seq<Byte>)
    ensures TuyaLearn.Decode(data).Ok? ==> data != [] && data[0] < 32
  {
    if data != [] && data[0] >= 32 {
      assert FastLz.Decompressed(data, []).Err?;
    }
  }

  /** The detector reports Broadlink timings exactly if the Broadlink decoder gives them. */
  lemma ReportsBroadlink(data: seq<Byte>, raw: seq<int>)
    ensures Auto(data) == Ok(Decoded(raw, BroadlinkBase64)) <==> Broadlink.Decode(data) == Ok(raw)
  {
    WindowIsSeen(data);
    BroadlinkDeclaresWindow(data);
  }

  /** It reports chunked timings exactly if the chunk decoder gives them and no window is declared. */
  lemma ReportsChunked(data: seq<Byte>, raw: seq<int>)
    ensures Auto(data) == Ok(Decoded(raw, TuyaBase64)) <==> TuyaChunk.Decode(data) == Ok(raw) && !DeclaresWindow(data)
  {
    WindowIsSeen(data);
  }

  /** It reports a learn code exactly if the learn decoder accepts the bytes and the chunk decoder does
      not; no learn code is lost or taken for Broadlink. */
  lemma ReportsLearned(data: seq<Byte>, raw: seq<int>)
    ensures Auto(data) == Ok(Decoded(raw, TuyaLearnBase64)) <==>
      TuyaLearn.Decode(data) == Ok(raw) && TuyaChunk.Decode(data).Err?
    ensures TuyaLearn.Decode(data).Ok? ==> Auto(data).Ok? && Broadlink.Decode(data).Err?
  {
    WindowIsSeen(data);
    BroadlinkDeclaresWindow(data);
    LearnStartsWithLiteral(data);
  }

  /** It refuses exactly what declares a window the Broadlink decoder refuses, and what no decoder
      accepts. */
  lemma RefusesExactly(data: seq<Byte>)
    ensures Auto(data).Err? <==>
      && Broadlink.Decode(data).Err?
      && (DeclaresWindow(data) || (TuyaChunk.Decode(data).Err? && TuyaLearn.Decode(data).Err?))
    ensures Auto(data).Err? ==> Auto(data) == Err(Broadlink.Decode(data).error)
  {
    WindowIsSeen(data);
    BroadlinkDeclaresWindow(data);
  }
}
