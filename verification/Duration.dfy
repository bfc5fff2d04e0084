/** `checkpoint_cadence` and `witness_grace_period` text: `P[n]DT[n]H[n]M[n]S`, to nanoseconds. */
module Duration {
  import opened Wrappers
  import opened Bits
  import opened Encoding
  import opened Digits

  const NANOS_PER_SECOND: nat := 1_000_000_000
  const SECONDS_PER_MINUTE: nat := 60
  const SECONDS_PER_HOUR: nat := 3_600
  const SECONDS_PER_DAY: nat := 86_400

  // ---- the parser ----

  /** The first position of `c` in `s` at or after `from`. */
  function FindFrom(s: string, c: char, from: nat): (r: Option<nat>)
    requires from <= |s|
    ensures r.Some? ==> from <= r.value < |s| && s[r.value] == c && forall i :: from <= i < r.value ==> s[i] != c
    ensures r.None? ==> forall i :: from <= i < |s| ==> s[i] != c
    decreases |s| - from
  {
    if from == |s| then None else if s[from] == c then Some(from) else FindFrom(s, c, from + 1)
  }

  function Find(s: string, c: char): Option<nat> {
    FindFrom(s, c, 0)
  }

  datatype Component = NoComponent | Component(n: nat, rest: string)

  /** `take_component`: a leading `<digits><unit>`, where `unit` occurs at all. */
  function TakeComponent(input: string, unit: char): MirrorResult<Component> {
    match Find(input, unit)
    case None => Ok(NoComponent)
    case Some(pos) =>
      var digits := input[..pos];
      if |digits| == 0 || !AllDigits(digits) then Err(BadDuration)
      else if Value(digits) > MAX_U64 then Err(BadDuration)
      else Ok(Component(Value(digits), input[pos + 1..]))
  }

  datatype Progress = Progress(total: nat, cursor: string)

  /** One optional component added to a running total of seconds. */
  function AddComponent(p: Progress, unit: char, secondsPerUnit: nat): MirrorResult<Progress> {
    var c :- TakeComponent(p.cursor, unit);
    match c
    case NoComponent => Ok(p)
    case Component(n, rest) =>
      if n * secondsPerUnit > MAX_U64 then Err(BadDuration)
      else if p.total + n * secondsPerUnit > MAX_U64 then Err(BadDuration)
      else Ok(Progress(p.total + n * secondsPerUnit, rest))
  }

  datatype Seconds = Seconds(whole: nat, nanos: nat)

  /** Fraction digits padded on the right to nine. */
  function PadNine(f: string): (s: string)
    ensures AllDigits(f) ==> AllDigits(s)
    decreases 9 - |f|
  {
    if |f| >= 9 then f else PadNine(f + "0")
  }

  /** The seconds text between the last component and its `S`. */
  function ParseSeconds(s: string): MirrorResult<Seconds> {
    if |s| == 0 then Err(BadDuration)
    else match Find(s, '.')
      case None =>
        (match ParseU64(s)
         case None => Err(BadDuration)
         case Some(whole) => Ok(Seconds(whole, 0)))
      case Some(dot) =>
        var w, f := s[..dot], s[dot + 1..];
        if |f| == 0 || !AllDigits(f) then Err(BadDuration)
        else if |f| > 9 then Err(DurationFractionTooLong)
        else match ParseU64(w)
          case None => Err(BadDuration)
          case Some(whole) => Ok(Seconds(whole, Value(PadNine(f))))
  }

  /** Whatever is left after the whole components: seconds with their `S`, or nothing. */
  function ParseTail(p: Progress): MirrorResult<Seconds> {
    if |p.cursor| == 0 then Ok(Seconds(p.total, 0))
    else if p.cursor[|p.cursor| - 1] != 'S' then Err(BadDuration)
    else
      var s :- ParseSeconds(p.cursor[..|p.cursor| - 1]);
      if p.total + s.whole > MAX_U64 then Err(BadDuration) else Ok(Seconds(p.total + s.whole, s.nanos))
  }

  function ParseAfterHours(p: Progress): MirrorResult<Seconds> {
    var m :- AddComponent(p, 'M', SECONDS_PER_MINUTE);
    ParseTail(m)
  }

  /** The part after `T`. */
  function ParseTimePart(total: nat, time: string): MirrorResult<Seconds> {
    if |time| == 0 then Err(BadDuration)
    else
      var h :- AddComponent(Progress(total, time), 'H', SECONDS_PER_HOUR);
      ParseAfterHours(h)
  }

  /** Total nanoseconds, if a `u64` holds them. */
  function ToNanos(s: Seconds): MirrorResult<nat> {
    if s.whole * NANOS_PER_SECOND > MAX_U64 then Err(BadDuration)
    else if s.whole * NANOS_PER_SECOND + s.nanos > MAX_U64 then Err(BadDuration)
    else Ok(s.whole * NANOS_PER_SECOND + s.nanos)
  }

  function DatePart(rest: string): string {
    match Find(rest, 'T')
    case None => rest
    case Some(t) => rest[..t]
  }

  /** The part before `T`: days, or nothing. */
  function ParseDatePart(date: string): MirrorResult<nat> {
    var d :- AddComponent(Progress(0, date), 'D', SECONDS_PER_DAY);
    if |d.cursor| > 0 then Err(BadDuration) else Ok(d.total)
  }

  /** The text after `P`, once it carries no calendar component. */
  function ParseFields(rest: string): MirrorResult<Seconds> {
    match Find(rest, 'T')
    case None =>
      var days :- ParseDatePart(rest);
      Ok(Seconds(days, 0))
    case Some(t) =>
      var days :- ParseDatePart(rest[..t]);
      ParseTimePart(days, rest[t + 1..])
  }

  /** `parse_iso8601_duration_nanos`. */
  function ParseDuration(value: string): MirrorResult<nat> {
    if |value| == 0 || value[0] != 'P' then Err(BadDuration)
    else if |value| == 1 then Err(BadDuration)
    else if 'Y' in value[1..] then Err(ProhibitedDurationComponent('Y'))
    else if 'M' in DatePart(value[1..]) then Err(ProhibitedDurationComponent('M'))
    else
      var s :- ParseFields(value[1..]);
      ToNanos(s)
  }

  /** `parse_checkpoint_cadence_nanos`: a cadence is a positive duration. */
  function ParseCadence(value: string): MirrorResult<nat> {
    var nanos :- ParseDuration(value);
    if nanos == 0 then Err(NonPositiveCadence) else Ok(nanos)
  }

  // ---- the grammar ----

  /** A spelled duration: each component absent, or the digits written for it. */
  datatype Spelling = Spelling(days: Option<string>, time: Option<TimeSpelling>)
  datatype TimeSpelling = TimeSpelling(hours: Option<string>, minutes: Option<string>, seconds: Option<SecondsSpelling>)

  /** Seconds digits, an optional fraction, and whether a plus sign was written before them. */
  datatype SecondsSpelling = SecondsSpelling(plus: bool, whole: string, fraction: Option<string>)

  predicate Digits1(s: string) {
    |s| >= 1 && AllDigits(s)
  }

  predicate WellFormed(sp: Spelling) {
    && (sp.days.Some? || sp.time.Some?)
    && (sp.days.Some? ==> Digits1(sp.days.value))
    && (sp.time.Some? ==> WellFormedTime(sp.time.value))
  }

  predicate WellFormedTime(t: TimeSpelling) {
    && (t.hours.Some? || t.minutes.Some? || t.seconds.Some?)
    && (t.hours.Some? ==> Digits1(t.hours.value))
    && (t.minutes.Some? ==> Digits1(t.minutes.value))
    && (t.seconds.Some? ==> WellFormedSeconds(t.seconds.value))
  }

  predicate WellFormedSeconds(s: SecondsSpelling) {
    Digits1(s.whole) && (s.fraction.Some? ==> Digits1(s.fraction.value) && |s.fraction.value| <= 9)
  }

  function SpellUnit(digits: Option<string>, unit: char): string {
    if digits.None? then "" else digits.value + [unit]
  }

  function SpellSecondsText(s: SecondsSpelling): string {
    (if s.plus then "+" else "") + s.whole + (if s.fraction.None? then "" else "." + s.fraction.value)
  }

  function SpellSeconds(s: Option<SecondsSpelling>): string {
    if s.None? then "" else SpellSecondsText(s.value) + "S"
  }

  function SpellAfterHours(t: TimeSpelling): string {
    SpellUnit(t.minutes, 'M') + SpellSeconds(t.seconds)
  }

  function SpellTime(t: TimeSpelling): string {
    SpellUnit(t.hours, 'H') + SpellAfterHours(t)
  }

  function SpellFields(sp: Spelling): string {
    if sp.time.None? then SpellUnit(sp.days, 'D')
    else SpellUnit(sp.days, 'D') + ['T'] + SpellTime(sp.time.value)
  }

  function Spell(sp: Spelling): string {
    "P" + SpellFields(sp)
  }

  // ---- what a spelling means ----

  function Units(digits: Option<string>): nat
    requires digits.Some? ==> AllDigits(digits.value)
  {
    if digits.None? then 0 else Value(digits.value)
  }

  /** `0.f` seconds in nanoseconds: the fraction digits scaled up to nine places. */
  function FractionNanos(f: Option<string>): nat
    requires f.Some? ==> Digits1(f.value) && |f.value| <= 9
  {
    if f.None? then 0 else Scale(Value(f.value), 9 - |f.value|)
  }

  function AfterHoursSeconds(t: TimeSpelling): nat
    requires WellFormedTime(t)
  {
    Units(t.minutes) * SECONDS_PER_MINUTE + (if t.seconds.None? then 0 else Value(t.seconds.value.whole))
  }

  function TimeSeconds(t: TimeSpelling): nat
    requires WellFormedTime(t)
  {
    Units(t.hours) * SECONDS_PER_HOUR + AfterHoursSeconds(t)
  }

  function TimeNanos(t: TimeSpelling): nat
    requires WellFormedTime(t)
  {
    if t.seconds.None? then 0 else FractionNanos(t.seconds.value.fraction)
  }

  /** Whole seconds and nanoseconds a spelling denotes. */
  function TotalSeconds(sp: Spelling): Seconds
    requires WellFormed(sp)
  {
    if sp.time.None? then Seconds(Units(sp.days) * SECONDS_PER_DAY, 0)
    else Seconds(Units(sp.days) * SECONDS_PER_DAY + TimeSeconds(sp.time.value), TimeNanos(sp.time.value))
  }

  /** The exact number of nanoseconds a spelling denotes. */
  function Total(sp: Spelling): nat
    requires WellFormed(sp)
  {
    TotalSeconds(sp).whole * NANOS_PER_SECOND + TotalSeconds(sp).nanos
  }
}
