/** What the LG decoders say about every 28-bit frame, stated on its nibbles and command word. */
module LgVerdicts {
  import opened Wrappers
  import opened Integers
  import opened LgFrame
  import opened LgDecode

  // ---------- codes of modes, fan speeds and temperatures ----------

  /** The clamped temperature is the nearest one from 16 to 30. */
  lemma ClampIsNearest(celsius: int, other: int)
    requires 16 <= other <= 30
    ensures Abs(ClampTemperature(celsius) - celsius) <= Abs(other - celsius)
  {
  }

  /** A mode without a code of its own is sent as cool, such a fan speed as automatic, and `medium` as
      `mid`; whatever is off is the off command. */
  lemma Aliases(mode: Mode, celsius: int, fan: Fan, name: string)
    ensures EncodeState(true, OtherMode(name), celsius, fan) == EncodeState(true, Cool, celsius, fan)
    ensures EncodeState(true, mode, celsius, OtherFan(name)) == EncodeState(true, mode, celsius, AutoFan)
    ensures EncodeState(true, mode, celsius, Medium) == EncodeState(true, mode, celsius, Mid)
    ensures EncodeState(false, mode, celsius, fan) == EncodeState(true, ModeOff, celsius, fan) == 0x88C_0051
  {
    SameCodesSameFrame(OtherMode(name), Cool, celsius, fan, fan);
    SameCodesSameFrame(mode, mode, celsius, OtherFan(name), AutoFan);
    SameCodesSameFrame(mode, mode, celsius, Medium, Mid);
  }

  lemma SameCodesSameFrame(a: Mode, b: Mode, celsius: int, f: Fan, g: Fan)
    requires NativeMode(a) == NativeMode(b) && NativeFan(f) == NativeFan(g) && (a == ModeOff <==> b == ModeOff)
    ensures EncodeState(true, a, celsius, f) == EncodeState(true, b, celsius, g)
  {
  }

  /** The known codes are five modes and four fan speeds, with the lowest speed also read as low. */
  lemma KnownCodes(code: nat)
    ensures ModeFromNative(code) != UNKNOWN_MODE <==> code <= 4
    ensures FanFromNative(code) != UNKNOWN_FAN <==> code <= 2 || code == 4 || code == 5
    ensures FanFromNative(0) == FanFromNative(1) == Low
  {
  }

  /** Reading the code a mode or speed is sent as. */
  lemma CodesReadBack(mode: Mode, fan: Fan)
    ensures ModeFromNative(NativeMode(mode)) == if mode.OtherMode? || mode == ModeOff then Cool else mode
    ensures FanFromNative(NativeFan(fan)) == if fan.OtherFan? then AutoFan else if fan == Medium then Mid else fan
  {
  }

  // ---------- single bits ----------

  /** Flipping a bit adds its weight if the bit is clear and takes it away if it is set. */
  lemma {:induction false} FlipBitWeight(x: int, b: nat)
    ensures FlipBit(x, b) == if x / PowerOfTwo(b) % 2 == 0 then x + PowerOfTwo(b) else x - PowerOfTwo(b)
    decreases b
  {
    if b > 0 {
      FlipBitWeight(x / 2, b - 1);
      HalvesDivide(x, PowerOfTwo(b - 1));
    }
  }

  lemma HalvesDivide(x: int, p: nat)
    requires p >= 1
    ensures x / 2 / p == x / (2 * p)
  {
    var q, r := x / 2, x % 2;
    var u, v := q / p, q % p;
    assert x == 2 * (u * p + v) + r;
    assert x == u * (2 * p) + (2 * v + r);
    QuotientIs(x, 2 * p, u, 2 * v + r);
  }

  lemma Multiples(e: int, d: nat)
    ensures e >= 1 ==> e * d >= d
    ensures e <= -1 ==> e * d + d <= 0
  {
  }

  lemma QuotientIs(x: int, d: nat, q: int, r: nat)
    requires d > 0 && r < d && x == q * d + r
    ensures x / d == q
  {
    Multiples(x / d - q, d);
    assert (x / d - q) * d == x / d * d - q * d;
  }

  // ---------- the strict decoder ----------

  /** The flag a receiver must permit for a command word; none for words without a meaning. */
  function NeededFlag(word: nat): Option<Feature> {
    if word <= 0x0FFF then Some(ModeTempFan)
    else if word in {0x1004, 0x1005} then Some(EnergySaving)
    else if word == 0x1008 then Some(Jet)
    else if word in {0x1314, 0x1315} then Some(WallSwing)
    else if word in {0x1316, 0x1317} then Some(Swing)
    else if 0x8000 <= word <= 0x8FFF then Some(TimerOn)
    else if 0x9000 <= word <= 0x9FFF then Some(TimerOff)
    else if 0xA000 <= word <= 0xAFFF then Some(Sleep)
    else if 0xB000 <= word <= 0xBFFF then Some(ClearTimers)
    else if word == 0xC005 then Some(PowerOff)
    else if word == 0xC00A then Some(Light)
    else if word in {0xC00B, 0xC00C} then Some(AutoClean)
    else if word in {0xC02F, 0xC039} then Some(Ionizer)
    else None
  }

  /** Mode and fan nibbles that have a meaning. */
  predicate StateCodes(n: seq<nat>)
    requires |n| == 7
  {
    n[3] % 8 <= 4 && (n[1] <= 2 || n[1] == 4 || n[1] == 5)
  }

  /** The one error of a frame, by its nibbles and its command word: signature, then checksum, then the
      flag, then the word, then the state. */
  function ErrorOf(n: seq<nat>, word: nat, supported: Option<set<Feature>>): Option<DecodeError>
    requires |n| == 7
  {
    if n[5] != 8 || n[6] != 8 then Some(InvalidSignature)
    else if n[0] != (n[1] + n[2] + n[3] + n[4]) % 16 then Some(ChecksumMismatch)
    else
      match NeededFlag(word)
      case None => Some(UnknownCommandWord)
      case Some(flag) =>
        if supported.Some? && flag !in supported.value then Some(FlagNotSupported(flag))
        else if word <= 0x0FFF && !StateCodes(n) then Some(UnsupportedHvacState)
        else None
  }

  lemma RequiredIsNeeded(word: nat)
    requires word != 0xC005
    ensures RequiredFlag(FeatureFlags(word)) == NeededFlag(word)
  {
  }

  lemma UnknownIsUnneeded(word: nat)
    ensures LgCommand in FeatureFlags(word) && FeatureFlags(word)[LgCommand] == NamedUnknown <==> NeededFlag(word) == None
  {
  }

  lemma JudgeError(
      code: int, signed: bool, sound: bool, word: nat, state: State, supported: Option<set<Feature>>, readable: bool)
    requires code == OFF_COMMAND ==> signed && sound && word == 0xC005
    requires word == 0xC005 && signed && sound ==> code == OFF_COMMAND
    requires word <= 0x0FFF ==> state.powerOn && (Known(state) <==> readable)
    ensures Judge(code, signed, sound, word, state, supported).error ==
      if !signed then Some(InvalidSignature)
      else if !sound then Some(ChecksumMismatch)
      else match NeededFlag(word)
           case None => Some(UnknownCommandWord)
           case Some(flag) =>
             if supported.Some? && flag !in supported.value then Some(FlagNotSupported(flag))
             else if word <= 0x0FFF && !readable then Some(UnsupportedHvacState)
             else None
  {
    StateWordFeatures(word);
    UnknownIsUnneeded(word);
    if word != 0xC005 {
      RequiredIsNeeded(word);
    }
  }

  /** Only the off command has its word in a frame with valid signature and checksum. */
  lemma OffWordIsOffFrame(code: int)
    requires 0 <= code < FRAME_SIZE
    ensures CommandWord(code) == 0xC005 && Signature(code) == SIGNATURE && ValidChecksum(code) <==> code == OFF_COMMAND
  {
    OffCommandIsGenuine();
    if CommandWord(code) == 0xC005 && Signature(code) == SIGNATURE && ValidChecksum(code) {
      assert CommandWord(OFF_COMMAND) == 0xC005 && Checksum(code) == Checksum(OFF_COMMAND);
      assert code / 16 == OFF_COMMAND / 16;
    }
  }

  lemma FrameChecks(code: int)
    ensures var n := Nibbles(code);
      && (Signature(code) == SIGNATURE <==> n[5] == 8 == n[6])
      && (ValidChecksum(code) <==> n[0] == (n[1] + n[2] + n[3] + n[4]) % 16)
  {
    NibblesAt(code);
    SignatureByNibbles(code);
    ChecksumByNibbles(code);
  }

  /** The strict decoder's verdict on every frame, for every flag set. */
  lemma StrictVerdict(code: int, supported: Option<set<Feature>>)
    requires 0 <= code < FRAME_SIZE
    ensures DecodeStrict(code, supported).error == ErrorOf(Nibbles(code), CommandWord(code), supported)
  {
    var word, state, n := CommandWord(code), StateFields(code), Nibbles(code);
    assert code % FRAME_SIZE == code;
    FrameChecks(code);
    OffWordIsOffFrame(code);
    if word <= 0x0FFF {
      StateWordFields(code);
      KnownCodes(n[1]);
      KnownCodes(n[3] % 8);
    }
    JudgeError(code, Signature(code) == SIGNATURE, ValidChecksum(code), word, state, supported, StateCodes(n));
  }

  /** What else the strict decoder reports of an accepted frame: the off state for the off command, the
      spelled state for a state word, nothing for the other commands; and always the word itself. */
  lemma StrictReport(code: int, supported: Option<set<Feature>>)
    requires 0 <= code < FRAME_SIZE && DecodeStrict(code, supported).Ok()
    ensures var r := DecodeStrict(code, supported);
      && r.rawCode == code && r.signatureOk && r.checksumValid
      && (r.isOffCommand <==> code == 0x88C_0051)
      && (r.isOffCommand ==> r.features == map[PowerOff := Flag(true)])
      && (!r.isOffCommand ==> |r.features| == 2 && CommandWordText in r.features && r.features[CommandWordText] == Number(CommandWord(code)))
      && r.state == if r.isOffCommand then State(false, ModeOff, None, AutoFan)
                    else if CommandWord(code) <= 0x0FFF then StateOf(Nibbles(code))
                    else State(false, OtherMode("unknown"), None, AutoFan)
  {
    var word, state := CommandWord(code), StateFields(code);
    assert code % FRAME_SIZE == code;
    OffWordIsOffFrame(code);
    StrictAcceptsOnlyGenuine(code, supported);
    if word <= 0x0FFF {
      StateWordFields(code);
    }
    JudgeReport(code, word, state, supported);
  }

  lemma JudgeReport(code: int, word: nat, state: State, supported: Option<set<Feature>>)
    requires Judge(code, true, true, word, state, supported).Ok()
    ensures var r := Judge(code, true, true, word, state, supported);
      && (r.isOffCommand <==> code == OFF_COMMAND)
      && (r.isOffCommand ==> r.features == map[PowerOff := Flag(true)])
      && (!r.isOffCommand ==> |r.features| == 2 && CommandWordText in r.features && r.features[CommandWordText] == Number(word))
      && r.state == if r.isOffCommand then OFF_STATE else if word <= 0x0FFF then state else NO_STATE
  {
    FeatureEntries(word);
    StateWordFeatures(word);
  }

  lemma FeatureEntries(word: nat)
    ensures |FeatureFlags(word)| == 2
    ensures CommandWordText in FeatureFlags(word) && FeatureFlags(word)[CommandWordText] == Number(word)
  {
  }

  // ---------- the pilot engine ----------

  /** What the pilot decoder reads from any code: the off state for the off command and for every frame
      with a power bit set, the spelled state otherwise. */
  lemma PilotReads(code: int)
    ensures var p := DecodePilot(code);
      && p.rawCode == code % FRAME_SIZE
      && (p.isOffCommand <==> code % FRAME_SIZE == 0x88C_0051)
      && p.state == if Nibble(code % FRAME_SIZE, 4) < 4 then StateOf(Nibbles(code % FRAME_SIZE))
                    else State(false, ModeOff, None, AutoFan)
  {
    var c := code % FRAME_SIZE;
    NibblesAt(c);
    FieldsByNibble(c);
    SignedFrame(OFF_COMMAND, 1, 5, 0, 0, 0xC);
    NibblesAt(OFF_COMMAND);
  }

  /** The pilot detector's branches, by nibbles. */
  function BranchOf(code: int): Branch {
    var n := Nibbles(code);
    if code == 0 then EmptyCode
    else if n[5] != 8 || n[6] != 8 then WrongSignature
    else if n[0] != (n[1] + n[2] + n[3] + n[4]) % 16 then ChecksumFail
    else DecodedOk
  }

  function Confidence(branch: Branch): int {
    match branch
    case EmptyCode => 0
    case WrongSignature => 120
    case ChecksumFail => 280
    case DecodedOk => 1000
  }

  /** For every captured code the detector reports the branch its nibbles call for, that branch's
      confidence, and what the pilot decoder reads if it accepts. */
  lemma PilotDetects(captured: int)
    ensures var d, branch := PilotAutoDetect(captured), BranchOf(captured % FRAME_SIZE);
      && d.branch == branch && d.confidence == Confidence(branch)
      && (d.accepted <==> branch == DecodedOk)
      && d.state == if branch == DecodedOk then Some(DecodePilot(captured)) else None
  {
    FrameChecks(captured % FRAME_SIZE);
    MaskTwice(captured);
  }

  lemma MaskTwice(captured: int)
    ensures DecodePilot(captured % FRAME_SIZE) == DecodePilot(captured)
  {
    assert captured % FRAME_SIZE % FRAME_SIZE == captured % FRAME_SIZE;
  }
}
