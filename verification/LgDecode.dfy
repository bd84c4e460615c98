/** Reading LG frames: the strict decoder with its feature flags, and the pilot decoder and
    auto-detector. */
module LgDecode {
  import opened Wrappers
  import opened LgFrame

  const CMD_ENERGY_SAVING_ON := 0x1004
  const CMD_ENERGY_SAVING_OFF := 0x1005
  const CMD_JET_ON := 0x1008
  const CMD_WALL_SWING_ON := 0x1314
  const CMD_WALL_SWING_OFF := 0x1315
  const CMD_SWING_ON := 0x1316
  const CMD_SWING_OFF := 0x1317
  const CMD_TIMER_ON_BASE := 0x8000
  const CMD_TIMER_OFF_BASE := 0x9000
  const CMD_SLEEP_BASE := 0xA000
  const CMD_CLEAR_ALL := 0xB000
  const CMD_POWER_DOWN := 0xC005
  const CMD_LIGHT := 0xC00A
  const CMD_AUTO_CLEAN_ON := 0xC00B
  const CMD_AUTO_CLEAN_OFF := 0xC00C
  const CMD_IONIZER_OFF := 0xC02F
  const CMD_IONIZER_ON := 0xC039

  /** Keys of the feature dictionary, and the names of the flags a profile may list. */
  datatype Feature =
    | CommandWordText | LgCommand
    | PowerOff | ModeTempFan | EnergySaving | Jet | WallSwing | Swing | LightToggle | Light
    | AutoClean | Ionizer | TimerOn | TimerOff | Sleep | ClearTimers | PowerDown
    | OtherFeature(name: string)

  datatype FeatureValue = Flag(on: bool) | Number(n: nat) | NamedPowerDown | NamedUnknown

  type Features = map<Feature, FeatureValue>

  function FeatureFlags(word: nat): Features {
    var flags: Features := map[CommandWordText := Number(word)];
    if word <= 0x0FFF then flags[ModeTempFan := Flag(true)]
    else if word == CMD_POWER_DOWN then flags[LgCommand := NamedPowerDown]
    else if word == CMD_ENERGY_SAVING_ON then flags[EnergySaving := Flag(true)]
    else if word == CMD_ENERGY_SAVING_OFF then flags[EnergySaving := Flag(false)]
    else if word == CMD_JET_ON then flags[Jet := Flag(true)]
    else if word == CMD_WALL_SWING_ON then flags[WallSwing := Flag(true)]
    else if word == CMD_WALL_SWING_OFF then flags[WallSwing := Flag(false)]
    else if word == CMD_SWING_ON then flags[Swing := Flag(true)]
    else if word == CMD_SWING_OFF then flags[Swing := Flag(false)]
    else if word == CMD_LIGHT then flags[LightToggle := Flag(true)]
    else if word == CMD_AUTO_CLEAN_ON then flags[AutoClean := Flag(true)]
    else if word == CMD_AUTO_CLEAN_OFF then flags[AutoClean := Flag(false)]
    else if word == CMD_IONIZER_ON then flags[Ionizer := Flag(true)]
    else if word == CMD_IONIZER_OFF then flags[Ionizer := Flag(false)]
    else if CMD_TIMER_ON_BASE <= word <= 0x8FFF then flags[TimerOn := Number(word % 0x1000)]
    else if CMD_TIMER_OFF_BASE <= word <= 0x9FFF then flags[TimerOff := Number(word % 0x1000)]
    else if CMD_SLEEP_BASE <= word <= 0xAFFF then flags[Sleep := Number(word % 0x1000)]
    else if CMD_CLEAR_ALL <= word <= 0xBFFF then flags[ClearTimers := Flag(true)]
    else flags[LgCommand := NamedUnknown]
  }

  predicate Truthy(features: Features, key: Feature) {
    key in features && features[key] != Flag(false) && features[key] != Number(0)
  }

  /** The flag a profile must list for a frame with these features; none for the rest. */
  function RequiredFlag(features: Features): Option<Feature> {
    if Truthy(features, PowerOff) then Some(PowerOff)
    else if Truthy(features, ModeTempFan) then Some(ModeTempFan)
    else if EnergySaving in features then Some(EnergySaving)
    else if Truthy(features, Jet) then Some(Jet)
    else if WallSwing in features then Some(WallSwing)
    else if Swing in features then Some(Swing)
    else if Truthy(features, LightToggle) then Some(Light)
    else if AutoClean in features then Some(AutoClean)
    else if Ionizer in features then Some(Ionizer)
    else if TimerOn in features then Some(TimerOn)
    else if TimerOff in features then Some(TimerOff)
    else if Sleep in features then Some(Sleep)
    else if Truthy(features, ClearTimers) then Some(ClearTimers)
    else None
  }

  datatype DecodeError =
    | InvalidSignature
    | ChecksumMismatch
    | FlagNotSupported(flag: Feature)
    | UnknownCommandWord
    | UnsupportedHvacState

  /** The HVAC part of a decode result. */
  datatype State = State(powerOn: bool, mode: Mode, celsius: Option<int>, fan: Fan)

  datatype DecodeResult = DecodeResult(
    error: Option<DecodeError>, state: State, rawCode: int, isOffCommand: bool,
    features: Features, checksumValid: bool, signatureOk: bool)
  {
    predicate Ok() {
      error == None
    }
  }

  const NO_STATE := State(false, UNKNOWN_MODE, None, AutoFan)
  const OFF_STATE := State(false, ModeOff, None, AutoFan)

  /** The state fields of a frame, power and mode cut from inside their nibbles. */
  function StateFields(code: int): State {
    var powerOn := code / 0x4_0000 % 4 == 0;
    if powerOn then
      State(true, ModeFromNative(code / 0x1000 % 8), Some(code / 0x100 % 16 + TEMP_ADJUST), FanFromNative(code / 0x10 % 16))
    else OFF_STATE
  }

  /** The strict decoder's verdict on a frame, given its signature and checksum verdicts, its command
      word and the state its fields spell. */
  function Judge(code: int, signed: bool, sound: bool, word: nat, state: State, supported: Option<set<Feature>>): (r: DecodeResult)
    ensures r.rawCode == code && r.signatureOk == signed && r.checksumValid == sound
    ensures r.Ok() ==> signed && (sound || code == OFF_COMMAND)
  {
    if !signed then
      DecodeResult(Some(InvalidSignature), NO_STATE, code, false, map[], sound, false)
    else if code == OFF_COMMAND then
      var error := if supported.Some? && PowerOff !in supported.value then Some(FlagNotSupported(PowerOff)) else None;
      DecodeResult(error, OFF_STATE, code, true, map[PowerOff := Flag(true)], sound, true)
    else
      var features := FeatureFlags(word);
      var required := RequiredFlag(features);
      if !sound then
        DecodeResult(Some(ChecksumMismatch), NO_STATE, code, false, features, false, true)
      else if supported.Some? && required.Some? && required.value !in supported.value then
        DecodeResult(Some(FlagNotSupported(required.value)), NO_STATE, code, false, features, true, true)
      else if LgCommand in features && features[LgCommand] == NamedUnknown then
        DecodeResult(Some(UnknownCommandWord), NO_STATE, code, false, features, true, true)
      else if !Truthy(features, ModeTempFan) then
        DecodeResult(None, NO_STATE, code, false, features, true, true)
      else
        var known := !state.powerOn || (state.mode != UNKNOWN_MODE && state.fan != UNKNOWN_FAN);
        DecodeResult(if known then None else Some(UnsupportedHvacState), state, code, false, features, true, true)
  }

  function DecodeStrict(code0: int, supported: Option<set<Feature>>): DecodeResult {
    var code := code0 % FRAME_SIZE;
    Judge(code, Signature(code) == SIGNATURE, ValidChecksum(code), CommandWord(code), StateFields(code), supported)
  }

  // ---------- the pilot engine ----------

  datatype PilotState = PilotState(state: State, rawCode: int, isOffCommand: bool)

  function DecodePilot(code0: int): PilotState {
    var code := code0 % FRAME_SIZE;
    if code == OFF_COMMAND then PilotState(OFF_STATE, code, true)
    else PilotState(StateFields(code), code, false)
  }

  datatype Branch = EmptyCode | WrongSignature | ChecksumFail | DecodedOk

  datatype Detection = Detection(accepted: bool, confidence: int, branch: Branch, state: Option<PilotState>)

  function PilotAutoDetect(captured: int): Detection {
    var code := captured % FRAME_SIZE;
    if code == 0 then Detection(false, 0, EmptyCode, None)
    else if Signature(code) != SIGNATURE then Detection(false, 120, WrongSignature, None)
    else if !ValidChecksum(code) then Detection(false, 280, ChecksumFail, None)
    else Detection(true, 1000, DecodedOk, Some(DecodePilot(code)))
  }

  // ---------- acceptance ----------

  lemma OffCommandIsGenuine()
    ensures Genuine(OFF_COMMAND)
  {
    SignedFrame(OFF_COMMAND, 1, 5, 0, 0, 0xC);
    GenuineByNibbles(OFF_COMMAND);
  }

  /** The strict decoder accepts only genuine frames, its early off-command branch included. */
  lemma StrictAcceptsOnlyGenuine(code: int, supported: Option<set<Feature>>)
    requires DecodeStrict(code, supported).Ok()
    ensures Genuine(code % FRAME_SIZE)
  {
    OffCommandIsGenuine();
  }

  /** The pilot detector accepts exactly the genuine frames and reports what the pilot decoder reads. */
  lemma PilotAcceptsExactlyGenuine(code: int)
    ensures PilotAutoDetect(code).accepted <==> Genuine(code % FRAME_SIZE)
    ensures PilotAutoDetect(code).accepted ==> PilotAutoDetect(code).state == Some(DecodePilot(code % FRAME_SIZE))
  {
    assert Signature(0) != SIGNATURE;
  }

  lemma NotGenuineRefused(code: int, supported: Option<set<Feature>>)
    requires 0 <= code < FRAME_SIZE && !Genuine(code)
    ensures !DecodeStrict(code, supported).Ok() && !PilotAutoDetect(code).accepted
  {
    assert code % FRAME_SIZE == code;
    if DecodeStrict(code, supported).Ok() {
      StrictAcceptsOnlyGenuine(code, supported);
    }
    PilotAcceptsExactlyGenuine(code);
  }

  /** Any change confined to one nibble of a genuine frame is refused by both. */
  lemma OneNibbleErrorRefused(code: int, k: nat, v: nat, supported: Option<set<Feature>>)
    requires Genuine(code) && k < 7 && v < 16 && v != Nibble(code, k)
    ensures !DecodeStrict(SetNibble(code, k, v), supported).Ok()
    ensures !PilotAutoDetect(SetNibble(code, k, v)).accepted
  {
    var damaged := SetNibble(code, k, v);
    OneNibbleBreaksFrame(code, k, v);
    NotGenuineRefused(damaged, supported);
  }

  /** Any single-bit error in a genuine frame is refused by both. */
  lemma OneBitErrorRefused(code: int, b: nat, supported: Option<set<Feature>>)
    requires Genuine(code) && b < 28
    ensures !DecodeStrict(FlipBit(code, b), supported).Ok()
    ensures !PilotAutoDetect(FlipBit(code, b)).accepted
  {
    var damaged := FlipBit(code, b);
    OneBitBreaksFrame(code, b);
    NotGenuineRefused(damaged, supported);
  }

  // ---------- fields by nibble ----------

  lemma FieldsByNibble(code: int)
    ensures code / 0x4_0000 % 4 == Nibble(code, 4) / 4
    ensures code / 0x1000 % 8 == Nibble(code, 3) % 8
    ensures code / 0x100 % 16 == Nibble(code, 2)
    ensures code / 0x10 % 16 == Nibble(code, 1)
  {
    ShiftByLiteral(code);
    TopBits(code / 0x1_0000);
    LowBits(code / 0x1000);
    assert code / 0x1_0000 / 4 == code / 0x4_0000;
  }

  lemma TopBits(x: int)
    ensures x / 4 % 4 == x % 16 / 4
  {
    var q, r := x / 16, x % 16;
    assert x / 4 == 4 * q + r / 4;
  }

  lemma LowBits(x: int)
    ensures x % 8 == x % 16 % 8
  {
    var q, r := x / 16, x % 16;
    assert x == 8 * (2 * q) + r;
  }

  lemma WordByNibble(code: int)
    ensures CommandWord(code) <= 0x0FFF <==> Nibble(code, 4) == 0
  {
    CommandNibbles(code);
    ShiftByLiteral(CommandWord(code));
    assert Shift4(CommandWord(code), 3) % 16 == CommandWord(code) / 0x1000;
  }

  // ---------- state frames ----------

  /** The mode an encoded mode is reported as: itself, or cool if it is not a known one. */
  function ReportedMode(mode: Mode): Mode {
    if mode.OtherMode? || mode == ModeOff then Cool else mode
  }

  /** The fan speed an encoded speed is reported as: itself, `Mid` for its alias, or automatic. */
  function ReportedFan(fan: Fan): Fan {
    match fan
    case Medium => Mid
    case OtherFan(_) => AutoFan
    case _ => fan
  }

  predicate Permits(supported: Option<set<Feature>>, flag: Feature) {
    supported.None? || flag in supported.value
  }

  predicate Known(state: State) {
    state.mode != UNKNOWN_MODE && state.fan != UNKNOWN_FAN
  }

  lemma StateWordFeatures(word: nat)
    ensures ModeTempFan in FeatureFlags(word) <==> word <= 0x0FFF
    ensures word <= 0x0FFF ==>
      && Truthy(FeatureFlags(word), ModeTempFan)
      && RequiredFlag(FeatureFlags(word)) == Some(ModeTempFan)
      && LgCommand !in FeatureFlags(word)
  {
  }

  lemma JudgeStateWord(code: int, word: nat, state: State, supported: Option<set<Feature>>)
    requires code != OFF_COMMAND && word <= 0x0FFF && state.powerOn && Known(state) && Permits(supported, ModeTempFan)
    ensures var r := Judge(code, true, true, word, state, supported);
      r.Ok() && r.state == state && !r.isOffCommand && ModeTempFan in r.features
  {
    StateWordFeatures(word);
  }

  lemma JudgeAcceptedState(code: int, signed: bool, sound: bool, word: nat, state: State, supported: Option<set<Feature>>)
    requires var r := Judge(code, signed, sound, word, state, supported); r.Ok() && ModeTempFan in r.features
    ensures signed && sound && code != OFF_COMMAND && word <= 0x0FFF && Permits(supported, ModeTempFan)
    ensures Judge(code, signed, sound, word, state, supported).state == state && (state.powerOn ==> Known(state))
  {
    StateWordFeatures(word);
  }

  /** The state the nibbles of a frame spell. */
  function StateOf(n: seq<nat>): State
    requires |n| == 7
  {
    State(true, ModeFromNative(n[3] % 8), Some(n[2] + TEMP_ADJUST), FanFromNative(n[1]))
  }

  /** The nibbles of genuine frames in the state command space with a known mode and fan speed. */
  predicate StateNibbles(n: seq<nat>)
    requires |n| == 7
  {
    GenuineNibbles(n) && n[4] == 0 && Known(StateOf(n))
  }

  predicate StateFrame(code: int) {
    0 <= code < FRAME_SIZE && StateNibbles(Nibbles(code))
  }

  lemma NibblesAt(code: int)
    ensures var n := Nibbles(code);
      && n[0] == Nibble(code, 0) && n[1] == Nibble(code, 1) && n[2] == Nibble(code, 2) && n[3] == Nibble(code, 3)
      && n[4] == Nibble(code, 4) && n[5] == Nibble(code, 5) && n[6] == Nibble(code, 6)
  {
  }

  lemma FieldsSpellState(code: int)
    requires Nibble(code, 4) == 0
    ensures StateFields(code) == StateOf(Nibbles(code))
  {
    FieldsByNibble(code);
    NibblesAt(code);
  }

  lemma StateFrameIsNotOff(code: int)
    requires Nibble(code, 4) == 0
    ensures code != OFF_COMMAND
  {
    SignedFrame(OFF_COMMAND, 1, 5, 0, 0, 0xC);
    NibblesAt(OFF_COMMAND);
  }

  lemma StateFrameParts(code: int)
    requires StateFrame(code)
    ensures code % FRAME_SIZE == code && Signature(code) == SIGNATURE && ValidChecksum(code)
    ensures code != OFF_COMMAND && CommandWord(code) <= 0x0FFF && StateFields(code) == StateOf(Nibbles(code))
  {
    assert code % FRAME_SIZE == code;
    GenuineByNibbles(code);
    StateFrameWord(code);
  }

  lemma StateFrameWord(code: int)
    requires Nibbles(code)[4] == 0
    ensures code != OFF_COMMAND && CommandWord(code) <= 0x0FFF && StateFields(code) == StateOf(Nibbles(code))
  {
    NibblesAt(code);
    StateFrameIsNotOff(code);
    WordByNibble(code);
    FieldsSpellState(code);
  }

  /** The strict decoder accepts state frames, and both engines read from them what they spell. */
  lemma StateFrameDecodes(code: int, supported: Option<set<Feature>>)
    requires StateFrame(code) && Permits(supported, ModeTempFan)
    ensures DecodeStrict(code, supported).Ok() && !DecodeStrict(code, supported).isOffCommand
    ensures ModeTempFan in DecodeStrict(code, supported).features
    ensures DecodeStrict(code, supported).state == StateOf(Nibbles(code))
    ensures DecodePilot(code).state == StateOf(Nibbles(code))
  {
    StateFrameParts(code);
    JudgeStateWord(code, CommandWord(code), StateFields(code), supported);
  }

  /** Conversely, an accepted frame that reports a state is a state frame, hence power-on, and the
      pilot engine reads the same fields. */
  lemma AcceptedIsStateFrame(code: int, supported: Option<set<Feature>>)
    requires 0 <= code < FRAME_SIZE
    requires DecodeStrict(code, supported).Ok() && ModeTempFan in DecodeStrict(code, supported).features
    ensures StateFrame(code) && Permits(supported, ModeTempFan)
    ensures DecodeStrict(code, supported).state.powerOn
    ensures DecodePilot(code).state == DecodeStrict(code, supported).state == StateOf(Nibbles(code))
  {
    assert code % FRAME_SIZE == code;
    var signed, sound := Signature(code) == SIGNATURE, ValidChecksum(code);
    JudgeAcceptedState(code, signed, sound, CommandWord(code), StateFields(code), supported);
    AcceptedNibbles(code);
  }

  lemma AcceptedNibbles(code: int)
    requires 0 <= code < FRAME_SIZE && Signature(code) == SIGNATURE && ValidChecksum(code) && CommandWord(code) <= 0x0FFF
    ensures GenuineNibbles(Nibbles(code)) && Nibbles(code)[4] == 0 && StateFields(code) == StateOf(Nibbles(code))
  {
    GenuineByNibbles(code);
    WordByNibble(code);
    NibblesAt(code);
    FieldsSpellState(code);
  }

  /** The command words with a name of their own. */
  predicate NamedWord(word: nat) {
    word in {
      CMD_ENERGY_SAVING_ON, CMD_ENERGY_SAVING_OFF, CMD_JET_ON, CMD_WALL_SWING_ON, CMD_WALL_SWING_OFF,
      CMD_SWING_ON, CMD_SWING_OFF, CMD_POWER_DOWN, CMD_LIGHT, CMD_AUTO_CLEAN_ON, CMD_AUTO_CLEAN_OFF,
      CMD_IONIZER_OFF, CMD_IONIZER_ON}
  }

  /** State words, named words and the timer block. */
  predicate KnownWord(word: nat) {
    word <= 0x0FFF || NamedWord(word) || 0x8000 <= word <= 0xBFFF
  }

  lemma UnknownWords(word: nat)
    ensures LgCommand in FeatureFlags(word) && FeatureFlags(word)[LgCommand] == NamedUnknown <==> !KnownWord(word)
  {
  }

  /** When the verdict on a frame is acceptance, without a flag set. */
  predicate Acceptable(signed: bool, sound: bool, word: nat, state: State) {
    signed && sound && KnownWord(word) && (word <= 0x0FFF ==> Known(state))
  }

  lemma JudgeVerdict(code: int, signed: bool, sound: bool, word: nat, state: State)
    requires code == OFF_COMMAND ==> sound && word == CMD_POWER_DOWN
    requires word <= 0x0FFF ==> state.powerOn
    ensures Judge(code, signed, sound, word, state, None).Ok() <==> Acceptable(signed, sound, word, state)
  {
    UnknownWords(word);
    StateWordFeatures(word);
  }

  lemma StateWordFields(code: int)
    requires CommandWord(code) <= 0x0FFF
    ensures StateFields(code) == StateOf(Nibbles(code))
  {
    WordByNibble(code);
    FieldsSpellState(code);
  }

  /** Without a flag set the strict decoder accepts exactly the genuine frames with a known command word
      whose mode and fan, if it is a state word, are known. */
  lemma StrictAcceptsExactly(code: int)
    requires 0 <= code < FRAME_SIZE
    ensures DecodeStrict(code, None).Ok() <==>
      && Signature(code) == SIGNATURE && ValidChecksum(code) && KnownWord(CommandWord(code))
      && (CommandWord(code) <= 0x0FFF ==> Known(StateOf(Nibbles(code))))
  {
    var word, state := CommandWord(code), StateFields(code);
    assert code % FRAME_SIZE == code;
    OffCommandIsGenuine();
    if word <= 0x0FFF {
      StateWordFields(code);
    }
    assert code == OFF_COMMAND ==> word == CMD_POWER_DOWN;
    JudgeVerdict(code, Signature(code) == SIGNATURE, ValidChecksum(code), word, state);
  }

  // ---------- encode, then decode ----------

  /** The nibbles of an encoded state. */
  function EncodedNibbles(mode: Mode, celsius: int, fan: Fan): seq<nat> {
    var f, t, m := NativeFan(fan), ClampTemperature(celsius) - TEMP_ADJUST, NativeMode(mode);
    [(f + t + m) % 16, f, t, m, 0, 8, 8]
  }

  lemma EncodedNibblesSpell(mode: Mode, celsius: int, fan: Fan)
    requires mode != ModeOff
    ensures StateNibbles(EncodedNibbles(mode, celsius, fan))
    ensures StateOf(EncodedNibbles(mode, celsius, fan))
      == State(true, ReportedMode(mode), Some(ClampTemperature(celsius)), ReportedFan(fan))
  {
  }

  lemma EncodedStateFrame(mode: Mode, celsius: int, fan: Fan)
    requires mode != ModeOff
    ensures StateFrame(EncodeState(true, mode, celsius, fan))
    ensures Nibbles(EncodeState(true, mode, celsius, fan)) == EncodedNibbles(mode, celsius, fan)
  {
    EncodedStateNibbles(mode, celsius, fan);
    EncodedNibblesSpell(mode, celsius, fan);
  }

  /** Encoding a state and decoding it strictly reports that state. */
  lemma EncodedStateReadsBack(mode: Mode, celsius: int, fan: Fan, supported: Option<set<Feature>>)
    requires mode != ModeOff && Permits(supported, ModeTempFan)
    ensures var r := DecodeStrict(EncodeState(true, mode, celsius, fan), supported);
      && r.Ok() && !r.isOffCommand
      && r.state == State(true, ReportedMode(mode), Some(ClampTemperature(celsius)), ReportedFan(fan))
  {
    EncodedStateFrame(mode, celsius, fan);
    EncodedNibblesSpell(mode, celsius, fan);
    StateFrameDecodes(EncodeState(true, mode, celsius, fan), supported);
  }

  // ---------- decode, then encode again ----------

  /** Encoding a reported state. */
  function Reencode(state: State): int
    requires state.celsius.Some?
  {
    EncodeState(state.powerOn, state.mode, state.celsius.value, state.fan)
  }

  function AtLeastOne(n: nat): nat {
    if n == 0 then 1 else n
  }

  /** A state frame's nibbles with bit 15 cleared, zero fan and temperature nibbles raised to one and
      the checksum recomputed. */
  function NormalNibbles(n: seq<nat>): seq<nat>
    requires |n| == 7
  {
    var a, b, c := AtLeastOne(n[1]), AtLeastOne(n[2]), n[3] % 8;
    [(a + b + c) % 16, a, b, c, 0, 8, 8]
  }

  predicate Normal(n: seq<nat>)
    requires |n| == 7
  {
    n[1] >= 1 && n[2] >= 1 && n[3] < 8
  }

  lemma NativeCodesRoundTrip(mode: nat, fan: nat)
    requires ModeFromNative(mode) != UNKNOWN_MODE && FanFromNative(fan) != UNKNOWN_FAN
    ensures ModeFromNative(mode) != ModeOff && NativeMode(ModeFromNative(mode)) == mode
    ensures NativeFan(FanFromNative(fan)) == AtLeastOne(fan)
  {
  }

  lemma ReencodedNibbles(n: seq<nat>)
    requires |n| == 7 && n[2] < 16 && StateNibbles(n)
    ensures var s := StateOf(n);
      s.mode != ModeOff && EncodedNibbles(s.mode, s.celsius.value, s.fan) == NormalNibbles(n)
    ensures Normal(NormalNibbles(n)) && (NormalNibbles(n) == n <==> Normal(n))
  {
    NativeCodesRoundTrip(n[3] % 8, n[1]);
  }

  lemma ReencodedFrame(code: int)
    requires StateFrame(code)
    ensures var again := Reencode(StateOf(Nibbles(code)));
      && StateFrame(again) && Nibbles(again) == NormalNibbles(Nibbles(code))
      && Normal(Nibbles(again)) && (again == code <==> Normal(Nibbles(code)))
  {
    var n := Nibbles(code);
    var s := StateOf(n);
    assert n[2] == Nibble(code, 2);
    ReencodedNibbles(n);
    EncodedStateFrame(s.mode, s.celsius.value, s.fan);
    FrameIsItsNibbles(code);
    FrameIsItsNibbles(Reencode(s));
  }

  /** Decoding an accepted HVAC frame and encoding the report again normalises the frame and changes
      nothing else; it is the identity exactly on normal frames, the result is accepted again, and
      doing it twice is doing it once. */
  lemma ReencodeIsProjection(code: int, supported: Option<set<Feature>>)
    requires 0 <= code < FRAME_SIZE
    requires DecodeStrict(code, supported).Ok() && ModeTempFan in DecodeStrict(code, supported).features
    ensures DecodeStrict(code, supported).state.celsius.Some?
    ensures var again := Reencode(DecodeStrict(code, supported).state);
      && Nibbles(again) == NormalNibbles(Nibbles(code))
      && (again == code <==> Normal(Nibbles(code)))
      && DecodeStrict(again, supported).Ok() && DecodeStrict(again, supported).state.celsius.Some?
      && Reencode(DecodeStrict(again, supported).state) == again
  {
    AcceptedIsStateFrame(code, supported);
    var again := Reencode(StateOf(Nibbles(code)));
    ReencodedFrame(code);
    ReencodedFrame(again);
    StateFrameDecodes(again, supported);
  }
}
