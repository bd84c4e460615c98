/** The send path for LG28 profiles: from a service request to timings, and end to end to what a
    receiver of the transported timings reads. */
module LgSend {
  import opened Wrappers
  import opened LgFrame
  import opened LgDecode
  import LgTimings
  import LgVerdicts
  import TuyaChunk

  datatype Special =
    | EnergySavingOn | EnergySavingOff | IonizerOn | IonizerOff | JetOn | WallSwingOn | WallSwingOff
    | SwingOn | SwingOff | AutoCleanOn | AutoCleanOff | LightPress | PowerDownPress | ClearTimersPress

  /** The normalised action: a special one, an HVAC mode (`off` included), or anything else. */
  datatype Action = SpecialAction(special: Special) | HvacAction(mode: Mode)

  datatype Request = Request(action: Action, mode: Option<Mode>, fan: Option<Fan>, celsius: Option<int>)

  datatype Profile = Profile(
    flags: set<Feature>, operationModes: set<Mode>, fanModes: set<Fan>, minCelsius: int, maxCelsius: int)

  datatype SendError =
    | FlagMissing(flag: Feature)
    | UnsupportedAction
    | ParametersMissing
    | ModeNotInProfile
    | FanNotInProfile
    | TemperatureOutOfRange

  function SpecialWord(special: Special): nat {
    match special
    case EnergySavingOn => CMD_ENERGY_SAVING_ON
    case EnergySavingOff => CMD_ENERGY_SAVING_OFF
    case IonizerOn => CMD_IONIZER_ON
    case IonizerOff => CMD_IONIZER_OFF
    case JetOn => CMD_JET_ON
    case WallSwingOn => CMD_WALL_SWING_ON
    case WallSwingOff => CMD_WALL_SWING_OFF
    case SwingOn => CMD_SWING_ON
    case SwingOff => CMD_SWING_OFF
    case AutoCleanOn => CMD_AUTO_CLEAN_ON
    case AutoCleanOff => CMD_AUTO_CLEAN_OFF
    case LightPress => CMD_LIGHT
    case PowerDownPress => CMD_POWER_DOWN
    case ClearTimersPress => CMD_CLEAR_ALL
  }

  function SpecialFlag(special: Special): Feature {
    match special
    case EnergySavingOn => EnergySaving
    case EnergySavingOff => EnergySaving
    case IonizerOn => Ionizer
    case IonizerOff => Ionizer
    case JetOn => Jet
    case WallSwingOn => WallSwing
    case WallSwingOff => WallSwing
    case SwingOn => Swing
    case SwingOff => Swing
    case AutoCleanOn => AutoClean
    case AutoCleanOff => AutoClean
    case LightPress => Light
    case PowerDownPress => PowerDown
    case ClearTimersPress => ClearTimers
  }

  function NormalizeFan(fan: Fan): Fan {
    if fan == Medium then Mid else fan
  }

  /** The frame a request is turned into. */
  function ResolveCode(p: Profile, q: Request): Result<int, SendError> {
    match q.action
    case SpecialAction(special) =>
      if SpecialFlag(special) !in p.flags then Err(FlagMissing(SpecialFlag(special)))
      else Ok(EncodeCommand(SpecialWord(special)))
    case HvacAction(action) =>
      if action.OtherMode? then Err(UnsupportedAction)
      else if action == ModeOff then Ok(EncodeState(false, ModeOff, 24, AutoFan))
      else if q.mode.None? || q.fan.None? || q.celsius.None? then Err(ParametersMissing)
      else
        var fan := NormalizeFan(q.fan.value);
        if p.operationModes != {} && q.mode.value !in p.operationModes then Err(ModeNotInProfile)
        else if p.fanModes != {} && fan !in p.fanModes then Err(FanNotInProfile)
        else if q.celsius.value < p.minCelsius || q.celsius.value > p.maxCelsius then Err(TemperatureOutOfRange)
        else Ok(EncodeState(true, q.mode.value, q.celsius.value, fan))
  }

  function ResolveRaw(p: Profile, q: Request): Result<seq<int>, SendError> {
    match ResolveCode(p, q)
    case Err(e) => Err(e)
    case Ok(code) => Ok(LgTimings.RawTimings(code))
  }

  // ---------- what special frames say ----------

  /** The entry of the report that says what was asked. */
  function SpecialEntry(special: Special): (Feature, FeatureValue) {
    match special
    case EnergySavingOn => (EnergySaving, Flag(true))
    case EnergySavingOff => (EnergySaving, Flag(false))
    case IonizerOn => (Ionizer, Flag(true))
    case IonizerOff => (Ionizer, Flag(false))
    case JetOn => (Jet, Flag(true))
    case WallSwingOn => (WallSwing, Flag(true))
    case WallSwingOff => (WallSwing, Flag(false))
    case SwingOn => (Swing, Flag(true))
    case SwingOff => (Swing, Flag(false))
    case AutoCleanOn => (AutoClean, Flag(true))
    case AutoCleanOff => (AutoClean, Flag(false))
    case LightPress => (LightToggle, Flag(true))
    case PowerDownPress => (PowerOff, Flag(true))
    case ClearTimersPress => (ClearTimers, Flag(true))
  }

  predicate Says(features: Features, entry: (Feature, FeatureValue)) {
    entry.0 in features && features[entry.0] == entry.1
  }

  lemma DigitSum(word: nat, a: nat, b: nat, c: nat, d: nat)
    requires a < 16 && b < 16 && c < 16 && d < 16 && word == a + 16 * (b + 16 * (c + 16 * d))
    ensures SumNibbles16(word) == (a + b + c + d) % 16
  {
    assert word / 16 == b + 16 * (c + 16 * d);
    assert word / 16 / 16 == c + 16 * d;
    assert word / 16 / 16 / 16 == d;
    ShiftOnce(word, 0);
    ShiftOnce(word, 1);
    ShiftOnce(word, 2);
  }

  lemma WordDigits(word: nat) returns (a: nat, b: nat, c: nat, d: nat)
    requires word < 0x1_0000
    ensures a < 16 && b < 16 && c < 16 && d < 16 && word == a + 16 * (b + 16 * (c + 16 * d))
    ensures SumNibbles16(word) == (a + b + c + d) % 16
  {
    a, b, c, d := word % 16, word / 16 % 16, word / 16 / 16 % 16, word / 16 / 16 / 16;
    DigitSum(word, a, b, c, d);
  }

  lemma CommandBody(word: nat, body: int)
    requires word < 0x1_0000 && body == 0x880_0000 + 0x10 * word
    ensures EncodeCommand(word) == ApplyChecksum(body)
  {
    assert word % 0x1_0000 == word;
  }

  lemma CommandBodyChecksum(word: nat, body: int)
    requires word < 0x1_0000 && body == 0x880_0000 + 0x10 * word
    ensures ApplyChecksum(body) == body + SumNibbles16(word) && Genuine(ApplyChecksum(body))
  {
    var a, b, c, d := WordDigits(word);
    OpenBody(body, a, b, c, d);
    ChecksumOfAligned(body);
    ChecksummedBody(body, a, b, c, d);
  }

  lemma AlignedWord(body: int, word: nat, s: nat)
    requires word < 0x1_0000 && s < 16 && body == 0x880_0000 + 0x10 * word
    ensures CommandWord(body + s) == word && (body + s) / 16 == 0x88_0000 + word
  {
    assert (body + s) / 16 == 0x88_0000 + word;
  }

  /** The frame of any 16-bit command word is genuine and carries the word. */
  lemma CommandFrame(word: nat)
    requires word < 0x1_0000
    ensures EncodeCommand(word) / 16 == 0x88_0000 + word
    ensures Genuine(EncodeCommand(word)) && CommandWord(EncodeCommand(word)) == word
  {
    var body := 0x880_0000 + 0x10 * word;
    CommandBody(word, body);
    CommandBodyChecksum(word, body);
    AlignedWord(body, word, SumNibbles16(word));
  }

  /** A genuine frame is determined by everything above its checksum. */
  lemma ChecksumDetermined(x: int, y: int)
    requires Genuine(x) && Genuine(y) && x / 16 == y / 16
    ensures x == y
  {
    assert CommandWord(x) == CommandWord(y);
  }

  /** Powering down sends the very frame that `off` sends. */
  lemma PowerDownIsOff(word: nat)
    requires word == CMD_POWER_DOWN
    ensures EncodeCommand(word) == OFF_COMMAND
  {
    CommandFrame(word);
    OffCommandIsGenuine();
    ChecksumDetermined(EncodeCommand(word), OFF_COMMAND);
  }

  /** The nibbles of a special action's command, lowest first. */
  function SpecialNibbles(special: Special): (r: seq<nat>)
    ensures |r| == 4 && forall i :: 0 <= i < 4 ==> r[i] < 16
  {
    match special
    case EnergySavingOn => [4, 0, 0, 1]
    case EnergySavingOff => [5, 0, 0, 1]
    case IonizerOn => [9, 3, 0, 12]
    case IonizerOff => [15, 2, 0, 12]
    case JetOn => [8, 0, 0, 1]
    case WallSwingOn => [4, 1, 3, 1]
    case WallSwingOff => [5, 1, 3, 1]
    case SwingOn => [6, 1, 3, 1]
    case SwingOff => [7, 1, 3, 1]
    case AutoCleanOn => [11, 0, 0, 12]
    case AutoCleanOff => [12, 0, 0, 12]
    case LightPress => [10, 0, 0, 12]
    case PowerDownPress => [5, 0, 0, 12]
    case ClearTimersPress => [0, 0, 0, 11]
  }

  lemma SpecialDigits(special: Special)
    ensures var n := SpecialNibbles(special);
      SpecialWord(special) == n[0] + 16 * (n[1] + 16 * (n[2] + 16 * n[3]))
  {
  }

  /** A special action is sent as its command's nibbles between their sum and the signature. */
  lemma SpecialFrames(special: Special)
    ensures var n := SpecialNibbles(special);
      Nibbles(EncodeCommand(SpecialWord(special))) == [(n[0] + n[1] + n[2] + n[3]) % 16] + n + [8, 8]
  {
    var word, n := SpecialWord(special), SpecialNibbles(special);
    SpecialDigits(special);
    CommandBody(word, 0x880_0000 + 0x10 * word);
    ChecksummedBody(0x880_0000 + 0x10 * word, n[0], n[1], n[2], n[3]);
  }

  /** No two special actions share a frame. */
  lemma SpecialFramesDiffer(a: Special, b: Special)
    ensures EncodeCommand(SpecialWord(a)) == EncodeCommand(SpecialWord(b)) ==> a == b
  {
    CommandFrame(SpecialWord(a));
    CommandFrame(SpecialWord(b));
  }

  lemma SpecialFeatures(special: Special)
    requires special != PowerDownPress
    ensures var features := FeatureFlags(SpecialWord(special));
      && Says(features, SpecialEntry(special))
      && RequiredFlag(features) == Some(SpecialFlag(special))
      && ModeTempFan !in features && LgCommand !in features
  {
  }

  lemma JudgeCommandWord(code: int, word: nat, state: State, supported: Option<set<Feature>>)
    requires code != OFF_COMMAND && ModeTempFan !in FeatureFlags(word) && LgCommand !in FeatureFlags(word)
    requires RequiredFlag(FeatureFlags(word)).Some?
    ensures var r := Judge(code, true, true, word, state, supported);
      && r.features == FeatureFlags(word)
      && (r.Ok() <==> Permits(supported, RequiredFlag(FeatureFlags(word)).value))
  {
  }

  lemma CommandFrameDecodes(code: int, word: nat, supported: Option<set<Feature>>)
    requires Genuine(code) && CommandWord(code) == word && word != CMD_POWER_DOWN
    requires ModeTempFan !in FeatureFlags(word) && LgCommand !in FeatureFlags(word)
    requires RequiredFlag(FeatureFlags(word)).Some?
    ensures DecodeStrict(code, supported).features == FeatureFlags(word)
    ensures DecodeStrict(code, supported).Ok() <==> Permits(supported, RequiredFlag(FeatureFlags(word)).value)
  {
    assert CommandWord(OFF_COMMAND) == CMD_POWER_DOWN;
    assert code % FRAME_SIZE == code;
    JudgeCommandWord(code, word, StateFields(code), supported);
  }

  /** The off frame is accepted exactly by receivers that permit `power_off`. */
  lemma OffFrameDecodes(supported: Option<set<Feature>>)
    ensures var r := DecodeStrict(OFF_COMMAND, supported);
      && (r.Ok() <==> Permits(supported, PowerOff))
      && r.isOffCommand && r.state == OFF_STATE && Says(r.features, (PowerOff, Flag(true)))
  {
    OffCommandIsGenuine();
  }

  /** The flag a receiver must permit for a special action's frame. */
  function ReceiverFlag(special: Special): Feature {
    if special == PowerDownPress then PowerOff else SpecialFlag(special)
  }

  /** A special action's frame says what was asked, and is accepted exactly by receivers that permit its
      flag (for power-down, `power_off`). */
  lemma SpecialFrameDecodes(special: Special, supported: Option<set<Feature>>)
    ensures var r := DecodeStrict(EncodeCommand(SpecialWord(special)), supported);
      (r.Ok() <==> Permits(supported, ReceiverFlag(special))) && Says(r.features, SpecialEntry(special))
  {
    var word := SpecialWord(special);
    var code := EncodeCommand(word);
    CommandFrame(word);
    if special == PowerDownPress {
      PowerDownIsOff(word);
      OffFrameDecodes(supported);
    } else {
      SpecialFeatures(special);
      CommandFrameDecodes(code, word, supported);
    }
  }

  datatype Timer = OnTimer | OffTimer | SleepTimer

  function TimerBase(timer: Timer): nat {
    match timer
    case OnTimer => CMD_TIMER_ON_BASE
    case OffTimer => CMD_TIMER_OFF_BASE
    case SleepTimer => CMD_SLEEP_BASE
  }

  function TimerFlag(timer: Timer): Feature {
    match timer
    case OnTimer => TimerOn
    case OffTimer => TimerOff
    case SleepTimer => Sleep
  }

  lemma TimerFeatures(timer: Timer, minutes: nat)
    requires minutes < 0x1000
    ensures var features := FeatureFlags(TimerBase(timer) + minutes);
      && Says(features, (TimerFlag(timer), Number(minutes)))
      && RequiredFlag(features) == Some(TimerFlag(timer))
      && ModeTempFan !in features && LgCommand !in features
  {
  }

  /** A timer command reads back as the same timer with the same number of minutes, zero included,
      and is accepted exactly by receivers that permit its flag. */
  lemma TimerFrameDecodes(timer: Timer, minutes: nat, supported: Option<set<Feature>>)
    requires minutes < 0x1000
    ensures var r := DecodeStrict(EncodeCommand(TimerBase(timer) + minutes), supported);
      (r.Ok() <==> Permits(supported, TimerFlag(timer))) && Says(r.features, (TimerFlag(timer), Number(minutes)))
  {
    var word := TimerBase(timer) + minutes;
    CommandFrame(word);
    TimerFeatures(timer, minutes);
    CommandFrameDecodes(EncodeCommand(word), word, supported);
  }

  // ---------- which requests are accepted ----------

  /** A special action is accepted exactly if a receiver with the profile's flags would accept its frame;
      power-down, whose frame needs `power_off`, exactly if `power_down` is listed. */
  lemma SpecialAccepted(p: Profile, q: Request, special: Special)
    requires q.action == SpecialAction(special)
    ensures ResolveCode(p, q).Ok? <==>
      if special == PowerDownPress then PowerDown in p.flags
      else DecodeStrict(EncodeCommand(SpecialWord(special)), Some(p.flags)).Ok()
    ensures ResolveCode(p, q).Err? ==> ResolveCode(p, q).error.FlagMissing? && ResolveCode(p, q).error.flag !in p.flags
  {
    SpecialFrameDecodes(special, Some(p.flags));
  }

  /** The requested fan speed under the profile's name for it. */
  predicate FanListed(p: Profile, fan: Fan) {
    p.fanModes == {} || (if fan == Medium then Mid in p.fanModes else fan in p.fanModes)
  }

  predicate ModeListed(p: Profile, mode: Mode) {
    p.operationModes == {} || mode in p.operationModes
  }

  /** The one error of an HVAC request, by what it asks and what the profile lists. */
  function HvacError(p: Profile, q: Request): Option<SendError>
    requires q.action.HvacAction?
  {
    if q.action.mode == ModeOff then None
    else if q.action.mode !in {Cool, Dry, Heat, FanOnly, AutoMode} then Some(UnsupportedAction)
    else
      match (q.mode, q.fan, q.celsius)
      case (Some(mode), Some(fan), Some(celsius)) =>
        if !ModeListed(p, mode) then Some(ModeNotInProfile)
        else if !FanListed(p, fan) then Some(FanNotInProfile)
        else if !(p.minCelsius <= celsius <= p.maxCelsius) then Some(TemperatureOutOfRange)
        else None
      case _ => Some(ParametersMissing)
  }

  /** Every HVAC request is answered with the error that names its cause, or with a frame: the off command
      for `off`, else one that spells the requested mode, fan and temperature. */
  lemma HvacAnswer(p: Profile, q: Request)
    requires q.action.HvacAction?
    ensures ResolveCode(p, q).Err? <==> HvacError(p, q).Some?
    ensures ResolveCode(p, q).Err? ==> ResolveCode(p, q).error == HvacError(p, q).value
    ensures ResolveCode(p, q).Ok? && q.action.mode == ModeOff ==> ResolveCode(p, q).value == 0x88C_0051
    ensures ResolveCode(p, q).Ok? && q.action.mode != ModeOff ==>
      ResolveCode(p, q).value == EncodeState(true, q.mode.value, q.celsius.value, q.fan.value)
  {
    if q.action.mode != ModeOff && q.mode.Some? && q.fan == Some(Medium) && q.celsius.Some? {
      LgVerdicts.SameCodesSameFrame(q.mode.value, q.mode.value, q.celsius.value, Medium, Mid);
    }
  }

  /** So an HVAC request is accepted exactly if it is `off`, or names a known action, gives all three
      parameters, each listed where the profile lists any, and a temperature in its range. */
  lemma HvacAccepted(p: Profile, q: Request)
    requires q.action.HvacAction?
    ensures ResolveRaw(p, q).Ok? <==>
      || q.action.mode == ModeOff
      || (&& q.action.mode in {Cool, Dry, Heat, FanOnly, AutoMode}
          && q.mode.Some? && q.fan.Some? && q.celsius.Some?
          && (p.operationModes != {} ==> q.mode.value in p.operationModes)
          && (p.fanModes != {} ==> (if q.fan.value == Medium then Mid else q.fan.value) in p.fanModes)
          && p.minCelsius <= q.celsius.value <= p.maxCelsius)
  {
    HvacAnswer(p, q);
  }

  // ---------- end to end ----------

  /** What the receiver of a request's frame must report. */
  ghost predicate Reports(r: DecodeResult, q: Request) {
    match q.action
    case SpecialAction(special) => Says(r.features, SpecialEntry(special))
    case HvacAction(action) =>
      if action == ModeOff || q.mode == Some(ModeOff) then r.isOffCommand && r.state == OFF_STATE
      else
        && q.mode.Some? && q.fan.Some? && q.celsius.Some?
        && r.state == State(true, ReportedMode(q.mode.value), Some(ClampTemperature(q.celsius.value)), ReportedFan(q.fan.value))
  }

  lemma ResolvedCodeDecodes(p: Profile, q: Request)
    requires ResolveCode(p, q).Ok?
    ensures var code := ResolveCode(p, q).value;
      var r := DecodeStrict(code, Some(p.flags + {ModeTempFan, PowerOff}));
      Genuine(code) && r.Ok() && Reports(r, q)
  {
    var supported := Some(p.flags + {ModeTempFan, PowerOff});
    match q.action {
      case SpecialAction(special) =>
        CommandFrame(SpecialWord(special));
        SpecialFrameDecodes(special, supported);
      case HvacAction(action) =>
        OffCommandIsGenuine();
        OffFrameDecodes(supported);
        if action != ModeOff && q.mode.value != ModeOff {
          var fan := NormalizeFan(q.fan.value);
          EncodedStateNibbles(q.mode.value, q.celsius.value, fan);
          EncodedStateReadsBack(q.mode.value, q.celsius.value, fan, supported);
        }
    }
  }

  /** What a receiver recovers from timings sent through the chunk coder. */
  function Receive(raw: seq<int>): Option<int> {
    match TuyaChunk.Decode(TuyaChunk.Encode(raw))
    case Err(_) => None
    case Ok(timings) => LgTimings.FirstFrame(timings, 0)
  }

  lemma GenuineCodeIsReceived(code: int)
    requires Genuine(code)
    ensures Receive(LgTimings.RawTimings(code)) == Some(code)
  {
    assert code % FRAME_SIZE == code;
    LgTimings.ChunkTransportReadsBack(code);
  }

  /** What was asked for is what is read back: for every request the LG28 branch accepts, encoding the
      timings for the transmitter, decoding them again and searching them for a frame finds one that a
      strict receiver with the profile's flags, plus the two basic ones, accepts, and it reports the
      request. */
  lemma EndToEnd(p: Profile, q: Request)
    requires ResolveRaw(p, q).Ok?
    ensures Receive(ResolveRaw(p, q).value).Some?
    ensures var r := DecodeStrict(Receive(ResolveRaw(p, q).value).value, Some(p.flags + {ModeTempFan, PowerOff}));
      r.Ok() && Reports(r, q)
  {
    var code := ResolveCode(p, q).value;
    ResolvedCodeDecodes(p, q);
    GenuineCodeIsReceived(code);
  }

  /** The report equals the request exactly when mode and fan are known by their own names and the
      temperature is one the frame can carry. */
  lemma ReportIsRequest(q: Request, r: DecodeResult)
    requires q.action.HvacAction? && q.action.mode != ModeOff && q.mode.Some? && q.fan.Some? && q.celsius.Some?
    requires q.mode.value != ModeOff && Reports(r, q)
    ensures r.state == State(true, q.mode.value, q.celsius, q.fan.value) <==>
      !q.mode.value.OtherMode? && !q.fan.value.OtherFan? && q.fan.value != Medium && 16 <= q.celsius.value <= 30
  {
  }
}
