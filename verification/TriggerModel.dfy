/** Trigger wheels of src/trigger_model.rs and the choice of decoder from page 0 in src/trigger_runtime.rs.
  Angles and spacings that only reach the display are left out. */
module TriggerModel {
  import opened Bytes

  datatype Ratio = Ratio(num: nat, den: nat)

  datatype Correlation = Correlation(cycleDeg: u16, primaryEvents: u16, secondaryEvents: u16, gapRatio: Option<Ratio>)

  datatype TriggerModelError = InvalidCylinderCount(cylinders: u8) | InvalidToothLayout(total: u16, missing: u16)

  const FOUR_STROKE_DEG: u16 := 720
  const REVOLUTIONS: nat := 2

  /** `missing_tooth` for a four-stroke engine. */
  function MissingTooth(total: u16, missing: u16): Result<Correlation, TriggerModelError> {
    if total < 4 || total > 512 || missing == 0 || missing >= total then Err(InvalidToothLayout(total, missing))
    else
      Ok(Correlation(FOUR_STROKE_DEG, Min((total - missing) * REVOLUTIONS, U16_MAX), 1, Some(Ratio(missing + 1, 1))))
  }

  /** `distributor_even` for a four-stroke engine. */
  function DistributorEven(cylinders: u8): Result<Correlation, TriggerModelError> {
    if cylinders == 0 || cylinders > 16 then Err(InvalidCylinderCount(cylinders))
    else Ok(Correlation(FOUR_STROKE_DEG, cylinders, 1, None))
  }

  function Clamp(x: int, low: int, high: int): (r: int)
    requires low <= high
    ensures low <= r <= high && (low <= x <= high ==> r == x)
  {
    if x < low then low else if x > high then high else x
  }

  function SanitizeCylinders(value: u8): u8 {
    if value == 0 then 4 else Min(value, 16)
  }

  function NormalizeDistributor(value: u8): u8 {
    var cylinders := SanitizeCylinders(value);
    if cylinders >= 8 then 8 else if cylinders >= 6 then 6 else 4
  }

  function SanitizeMissingTooth(total: u16, missing: u16): (u16, u16) {
    var t := if total < 4 then 60 else Min(total, 512);
    var m := if missing == 0 then 2 else Min(missing, Max(t - 1, 0));
    (t, if m == 0 then 1 else m)
  }

  /** The sanitizers accept what the wheel model accepts: they leave exactly the layouts it takes as they are, and
    whatever they return it takes, so neither fallback of the runtime is ever used. */
  lemma SanitizersMeetTheModel(total: u16, missing: u16, cylinders: u8)
    ensures var (t, m) := SanitizeMissingTooth(total, missing);
            && MissingTooth(t, m).Ok?
            && ((t, m) == (total, missing) <==> MissingTooth(total, missing).Ok?)
    ensures DistributorEven(SanitizeCylinders(cylinders)).Ok?
    ensures SanitizeCylinders(cylinders) == cylinders <==> DistributorEven(cylinders).Ok?
  {
  }

  // ---- page 0 and the choice of decoder ----

  /** The presets that page 0 can select. */
  datatype Preset =
    | Generic60_2 | Generic36_1 | DualWheelPreset | Distributor4 | Distributor6 | Distributor8
    | HondaK20 | Toyota36 | Gm24x | Nissan360 | Subaru67 | Mitsubishi4G63 | NissanVq | FordSt170

  datatype Mode =
    | MissingToothMode(total: u16, missing: u16)
    | DistributorMode(cylinders: u8)
    | DualWheelMode(primaryTeeth: u16, secondaryEvents: u8)
    | CatalogDefault

  datatype Page0 = Page0(
    cylinders: u8, triggerType: u8, total: u16, missing: u16, camSync: bool, secondaryEnabled: bool)

  const DEFAULT_PAGE0: Page0 := Page0(4, 0, 60, 2, true, true)

  function ParsePage0(payload: seq<byte>): Option<Page0> {
    if |payload| <= 57 then None
    else Some(Page0(SanitizeCylinders(Val(payload[5])), Val(payload[44]), U16Val(payload[46], payload[47]),
                    U16Val(payload[48], payload[49]), payload[55] != 0, payload[57] != 0))
  }

  datatype Selection = Selection(preset: Preset, mode: Mode)

  function SelectMissingTooth(c: Page0): Selection {
    var (total, missing) := SanitizeMissingTooth(c.total, c.missing);
    Selection(if total == 36 && missing == 1 then Generic36_1 else Generic60_2, MissingToothMode(total, missing))
  }

  function SelectDistributor(c: Page0): Selection {
    var cylinders := NormalizeDistributor(c.cylinders);
    Selection(if cylinders == 8 then Distributor8 else if cylinders == 6 then Distributor6 else Distributor4,
              DistributorMode(cylinders))
  }

  function SelectDualWheel(c: Page0, secondaryEvents: u8): Selection {
    Selection(DualWheelPreset, DualWheelMode(Clamp(c.total, 4, 96), secondaryEvents))
  }

  /** `select_decoder_from_page0`. */
  function Select(c: Page0): Selection {
    var secondary := c.secondaryEnabled || c.camSync;
    match c.triggerType
    case 1 => Selection(Subaru67, CatalogDefault)
    case 2 => Selection(Mitsubishi4G63, CatalogDefault)
    case 3 => Selection(Gm24x, CatalogDefault)
    case 4 => Selection(HondaK20, CatalogDefault)
    case 5 => Selection(HondaK20, CatalogDefault)
    case 6 => Selection(NissanVq, CatalogDefault)
    case 7 => Selection(Nissan360, CatalogDefault)
    case 8 => Selection(Toyota36, CatalogDefault)
    case 9 => Selection(FordSt170, CatalogDefault)
    case 10 => if secondary then SelectDualWheel(c, 1) else SelectMissingTooth(c)
    case 11 => SelectDistributor(c)
    case 12 => SelectDistributor(c)
    case 13 => SelectDualWheel(c, if c.secondaryEnabled then 2 else 1)
    case 14 =>
      if secondary then SelectDualWheel(c, if c.secondaryEnabled then 2 else 1)
      else if c.missing > 0 then SelectMissingTooth(c)
      else SelectDistributor(c)
    case _ => SelectMissingTooth(c)
  }

  /** The nominal number of events a preset of the catalogue has in one cycle. */
  function NominalEvents(p: Preset): u16 {
    match p
    case HondaK20 => 12 case Toyota36 => 64 case Gm24x => 48 case Nissan360 => 90 case Subaru67 => 12
    case Mitsubishi4G63 => 8 case FordSt170 => 70 case NissanVq => 64 case DualWheelPreset => 48
    case _ => 36
  }

  /** The sync strategy of the catalogue entry is the missing tooth with a home signal. */
  predicate MissingToothPlusHome(p: Preset) {
    p == Generic60_2 || p == Generic36_1 || p == FordSt170
  }

  predicate RequiresSecondary(p: Preset) {
    p != Distributor4 && p != Distributor6 && p != Distributor8
  }

  datatype Profile = Profile(
    cycleDeg: u16, primaryEvents: u16, secondaryEvents: u16, gapRatio: Option<Ratio>, syncGapTeeth: u8, reference: u16)

  /** `runtime_profile`. */
  function ProfileOf(s: Selection, secondary: bool): Profile {
    match s.mode
    case MissingToothMode(total, missing) =>
      var (t, m) := SanitizeMissingTooth(total, missing);
      var c := match MissingTooth(t, m) case Ok(c) => c case Err(_) => MissingTooth(60, 2).value;
      Profile(c.cycleDeg, Max(c.primaryEvents, 4), if secondary then Max(c.secondaryEvents, 1) else 0, c.gapRatio,
              Min(m, 255), c.primaryEvents / 2)
    case DistributorMode(cylinders) =>
      var c := match DistributorEven(SanitizeCylinders(cylinders))
               case Ok(c) => c
               case Err(_) => DistributorEven(4).value;
      Profile(c.cycleDeg, Max(c.primaryEvents, 4), if secondary then 1 else 0, None, 0, 0)
    case DualWheelMode(primaryTeeth, secondaryEvents) =>
      var primary := Clamp(primaryTeeth, 4, 96);
      Profile(FOUR_STROKE_DEG, Min(primary * 2, U16_MAX), if secondary then Max(secondaryEvents, 1) else 0, None, 0,
              primary / 2)
    case CatalogDefault =>
      var gap := MissingToothPlusHome(s.preset);
      Profile(FOUR_STROKE_DEG, NominalEvents(s.preset), if RequiresSecondary(s.preset) || secondary then 2 else 0,
              if gap then Some(Ratio(145, 100)) else None, if gap then 1 else 0, 0)
  }

  /** What the waveform needs to know of a profile. */
  predicate Drawable(p: Profile) {
    && p.cycleDeg == FOUR_STROKE_DEG
    && p.secondaryEvents <= 2
    && (p.gapRatio.Some? ==>
          var r := p.gapRatio.value;
          r.den > 0 && 145 * r.den <= 100 * r.num && r.num <= 512 * r.den && (r.den == 1 || r.den == 100))
  }

  predicate Selectable(s: Selection) {
    s.mode.DualWheelMode? ==> s.mode.secondaryEvents <= 2
  }

  /** Whatever bytes page 0 holds, the profile can be drawn; it has a gap exactly for the missing-tooth decoders and
    the one catalogue entry that has one. */
  lemma EveryPage0IsDrawable(payload: seq<byte>, secondary: bool)
    ensures var c := match ParsePage0(payload) case Some(c) => c case None => DEFAULT_PAGE0;
            && Selectable(Select(c))
            && Drawable(ProfileOf(Select(c), secondary))
            && (ProfileOf(Select(c), secondary).gapRatio.Some?
                <==> Select(c).mode.MissingToothMode? || Select(c).preset == FordSt170)
  {
    hide ParsePage0;
    var c := match ParsePage0(payload) case Some(c) => c case None => DEFAULT_PAGE0;
    SelectableIsDrawable(Select(c), secondary);
  }

  lemma SelectableIsDrawable(s: Selection, secondary: bool)
    requires Selectable(s)
    ensures Drawable(ProfileOf(s, secondary))
    ensures var r := ProfileOf(s, secondary).gapRatio;
            r.Some? <==> s.mode.MissingToothMode? || (s.mode.CatalogDefault? && MissingToothPlusHome(s.preset))
  {
    match s.mode {
      case MissingToothMode(total, missing) => SanitizersMeetTheModel(total, missing, 0);
      case DistributorMode(cylinders) => SanitizersMeetTheModel(0, 0, cylinders);
      case _ =>
    }
  }

  // ---- the choice, entry by entry ----

  /** Which trigger type selects which preset; types 10 and 14 ask for a secondary input, and type 14 for missing
    teeth. */
  lemma SelectExactly(c: Page0)
    ensures var p := Select(c).preset; var type_ := c.triggerType;
            var secondary := c.secondaryEnabled || c.camSync;
            var (t, m) := SanitizeMissingTooth(c.total, c.missing);
            && (p == Subaru67 <==> type_ == 1)
            && (p == Mitsubishi4G63 <==> type_ == 2)
            && (p == Gm24x <==> type_ == 3)
            && (p == HondaK20 <==> type_ == 4 || type_ == 5)
            && (p == NissanVq <==> type_ == 6)
            && (p == Nissan360 <==> type_ == 7)
            && (p == Toyota36 <==> type_ == 8)
            && (p == FordSt170 <==> type_ == 9)
            && (p == DualWheelPreset <==> type_ == 13 || (type_ in {10, 14} && secondary))
            && (p in {Distributor4, Distributor6, Distributor8} <==>
                  type_ in {11, 12} || (type_ == 14 && !secondary && c.missing == 0))
            && (Select(c).mode == MissingToothMode(t, m) <==>
                  type_ == 0 || type_ > 14 || (type_ == 10 && !secondary)
                  || (type_ == 14 && !secondary && c.missing > 0))
            && (p == Generic36_1 <==> Select(c).mode == MissingToothMode(36, 1))
            && (p == Generic60_2 <==> Select(c).mode.MissingToothMode? && (t != 36 || m != 1))
            && (p == DualWheelPreset ==>
                  Select(c).mode == DualWheelMode(if c.total < 4 then 4 else if c.total > 96 then 96 else c.total,
                                                  if type_ != 10 && c.secondaryEnabled then 2 else 1))
  {
  }

  /** The cylinders a distributor is taken for. */
  lemma DistributorExactly(c: Page0)
    requires Select(c).mode.DistributorMode?
    ensures Select(c)
         == if c.cylinders == 0 || c.cylinders < 6 then Selection(Distributor4, DistributorMode(4))
            else if c.cylinders < 8 then Selection(Distributor6, DistributorMode(6))
            else Selection(Distributor8, DistributorMode(8))
  {
  }

  /** A page 0 with the trigger configuration written into it at its offsets. */
  function WithTrigger(
      payload: seq<byte>, cylinders: byte, triggerType: byte, total: u16, missing: u16, camSync: byte, secondary: byte)
    : seq<byte>
    requires |payload| >= 58
  {
    payload[5 := cylinders][44 := triggerType]
           [46 := U16Bytes(total)[0]][47 := U16Bytes(total)[1]]
           [48 := U16Bytes(missing)[0]][49 := U16Bytes(missing)[1]]
           [55 := camSync][57 := secondary]
  }

  /** What a page that holds no configuration selects is what power-up started with. */
  lemma DefaultExactly()
    ensures Select(DEFAULT_PAGE0) == Selection(Generic60_2, MissingToothMode(60, 2))
    ensures SanitizeCylinders(DEFAULT_PAGE0.cylinders) == 4 && DEFAULT_PAGE0.camSync && DEFAULT_PAGE0.secondaryEnabled
  {
  }

  /** Whatever else page 0 holds, the configuration read from it is the one written to it; a shorter page has none. */
  lemma WrittenTriggerIsRead(
      payload: seq<byte>, cylinders: byte, triggerType: byte, total: u16, missing: u16, camSync: byte, secondary: byte)
    requires |payload| >= 58
    ensures ParsePage0(WithTrigger(payload, cylinders, triggerType, total, missing, camSync, secondary))
         == Some(Page0(if cylinders == 0 then 4 else Min(Val(cylinders), 16), Val(triggerType), total, missing,
                       camSync != 0, secondary != 0))
  {
    hide Val, U16Bytes, U16Val;
    U16RoundTrip(total);
    U16RoundTrip(missing);
    ValIsZero(cylinders);
  }

  lemma ValIsZero(b: byte)
    ensures Val(b) == 0 <==> b == 0
  {
    ByteOfVal(b);
    ValOfByte(0);
  }

  lemma ShortPageHasNone(payload: seq<byte>)
    ensures ParsePage0(payload) == None <==> |payload| < 58
  {
    hide Val, U16Val;
  }

  /** The profile of each kind of decoder. */
  lemma ProfileExactly(s: Selection, secondary: bool)
    ensures var p := ProfileOf(s, secondary); var second := if secondary then 1 else 0;
            match s.mode
            case MissingToothMode(total, missing) =>
              4 <= total <= 512 && 0 < missing < total ==>
                p == Profile(720, Max(2 * (total - missing), 4), second, Some(Ratio(missing + 1, 1)), Min(missing, 255),
                             total - missing)
            case DistributorMode(cylinders) =>
              4 <= cylinders <= 16 ==> p == Profile(720, cylinders, second, None, 0, 0)
            case DualWheelMode(teeth, events) =>
              4 <= teeth <= 96 && 0 < events ==>
                p == Profile(720, 2 * teeth, if secondary then events else 0, None, 0, teeth / 2)
            case CatalogDefault => p.primaryEvents == NominalEvents(s.preset) && p.reference == 0
  {
  }

  /** The profile of the presets of the catalogue by trigger type: their events, two secondary ones always, and a gap of
    1.45 for type 9 alone. */
  lemma CatalogueProfiles(c: Page0, secondary: bool)
    requires Select(c).mode.CatalogDefault?
    ensures 1 <= c.triggerType <= 9
    ensures ProfileOf(Select(c), secondary)
         == Profile(720, [0, 12, 8, 48, 12, 12, 64, 90, 64, 70][c.triggerType], 2,
                    if c.triggerType == 9 then Some(Ratio(145, 100)) else None,
                    if c.triggerType == 9 then 1 else 0, 0)
  {
  }

  /** What the sanitizers make of values the models do not take. */
  lemma SanitizedExactly(total: u16, missing: u16, cylinders: u8)
    ensures var (t, m) := SanitizeMissingTooth(total, missing);
            && t == (if total < 4 then 60 else if total > 512 then 512 else total)
            && m == (if missing == 0 then 2 else if missing >= t then t - 1 else missing)
    ensures SanitizeCylinders(cylinders) == if cylinders == 0 then 4 else if cylinders > 16 then 16 else cylinders
  {
  }
}
