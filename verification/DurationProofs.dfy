/** Duration text is parsed exactly: acceptance, value and rejection for every string. */
module DurationProofs {
  import opened Wrappers
  import opened Bits
  import opened Encoding
  import opened Digits
  import opened Duration

  // ---- text ----

  lemma SplitAt(text: string, i: nat, c: char)
    requires i < |text| && text[i] == c
    ensures text == text[..i] + [c] + text[i + 1..]
    ensures text == text[..i] + ([c] + text[i + 1..])
  {
  }

  lemma FindAt(a: string, c: char, b: string)
    requires c !in a
    ensures Find(a + [c] + b, c) == Some(|a|)
  {
    var s := a + [c] + b;
    assert s[|a|] == c && s[..|a|] == a;
    FoundFirst(s, c, |a|);
  }

  lemma FoundFirst(s: string, c: char, at: nat)
    requires at < |s| && s[at] == c && c !in s[..at]
    ensures Find(s, c) == Some(at)
  {
    assert forall i :: 0 <= i < at ==> s[i] == s[..at][i];
  }

  lemma FindNowhere(s: string, c: char)
    requires c !in s
    ensures Find(s, c) == None
  {
  }

  lemma DigitsOnly(s: string, c: char)
    requires AllDigits(s) && !IsDigit(c)
    ensures c !in s
  {
  }

  lemma {:induction false} PadNineValue(f: string)
    requires AllDigits(f) && |f| <= 9
    ensures Value(PadNine(f)) == Scale(Value(f), 9 - |f|)
    decreases 9 - |f|
  {
    if |f| >= 9 {
    } else {
      AppendZero(f);
      PadNineValue(f + "0");
    }
  }

  lemma AppendZero(f: string)
    requires AllDigits(f)
    ensures AllDigits(f + "0") && Value(f + "0") == 10 * Value(f)
  {
    var g := f + "0";
    assert g[..|g| - 1] == f;
  }

  // ---- one component ----

  /** A component that is written is taken exactly, or is too large for a `u64`. */
  lemma TakeWritten(digits: string, unit: char, rest: string)
    requires Digits1(digits) && !IsDigit(unit)
    ensures TakeComponent(digits + [unit] + rest, unit) ==
      if Value(digits) > MAX_U64 then Err(BadDuration) else Ok(Component(Value(digits), rest))
  {
    var s := digits + [unit] + rest;
    FindAt(digits, unit, rest);
    assert s[..|digits|] == digits && s[|digits| + 1..] == rest;
  }

  lemma TakenWasWritten(input: string, unit: char) returns (digits: string)
    requires TakeComponent(input, unit).Ok? && TakeComponent(input, unit).value.Component?
    ensures var c := TakeComponent(input, unit).value;
      Digits1(digits) && input == digits + [unit] + c.rest && c.n == Value(digits)
  {
    var pos := Find(input, unit).value;
    digits := input[..pos];
    assert input == input[..pos] + [input[pos]] + input[pos + 1..];
  }

  /** An optional component adds its exact value, unless the total leaves the `u64` range. */
  lemma AddWritten(total: nat, digits: Option<string>, unit: char, per: nat, rest: string)
    requires total <= MAX_U64 && per >= 1 && !IsDigit(unit)
    requires digits.Some? ==> Digits1(digits.value)
    requires digits.None? ==> unit !in rest
    ensures AddComponent(Progress(total, SpellUnit(digits, unit) + rest), unit, per) ==
      if total + Units(digits) * per > MAX_U64 then Err(BadDuration)
      else Ok(Progress(total + Units(digits) * per, rest))
  {
    if digits.None? {
      assert SpellUnit(digits, unit) + rest == rest;
      FindNowhere(rest, unit);
    } else {
      TakeWritten(digits.value, unit, rest);
      MulAtLeast(Value(digits.value), per);
    }
  }

  lemma AddedWasWritten(p: Progress, unit: char, per: nat) returns (digits: Option<string>)
    requires AddComponent(p, unit, per).Ok?
    ensures digits.Some? ==> Digits1(digits.value)
    ensures var q := AddComponent(p, unit, per).value;
      p.cursor == SpellUnit(digits, unit) + q.cursor && q.total == p.total + Units(digits) * per
  {
    var c := TakeComponent(p.cursor, unit).value;
    if c.NoComponent? {
      digits := None;
    } else {
      var d := TakenWasWritten(p.cursor, unit);
      digits := Some(d);
    }
  }

  // ---- seconds ----

  lemma SecondsWritten(s: SecondsSpelling)
    requires WellFormedSeconds(s)
    ensures ParseSeconds(SpellSecondsText(s)) ==
      if Value(s.whole) > MAX_U64 then Err(BadDuration) else Ok(Seconds(Value(s.whole), FractionNanos(s.fraction)))
  {
    var w := (if s.plus then "+" else "") + s.whole;
    WholeWritten(s);
    DigitsOnly(s.whole, '.');
    if s.fraction.None? {
      assert SpellSecondsText(s) == w;
      FindNowhere(w, '.');
    } else {
      var f := s.fraction.value;
      var text := w + ['.'] + f;
      assert SpellSecondsText(s) == text;
      FindAt(w, '.', f);
      assert text[..|w|] == w && text[|w| + 1..] == f;
      PadNineValue(f);
    }
  }

  lemma WholeWritten(s: SecondsSpelling)
    requires WellFormedSeconds(s)
    ensures ParseU64((if s.plus then "+" else "") + s.whole) ==
      if Value(s.whole) > MAX_U64 then None else Some(Value(s.whole))
  {
    if s.plus {
      assert ("+" + s.whole)[1..] == s.whole;
    } else {
      assert "" + s.whole == s.whole;
      assert IsDigit(s.whole[0]);
    }
  }

  /** Rust's integer parse also lets a plus sign through, and nothing else. */
  lemma WholeWasWritten(text: string) returns (plus: bool, whole: string)
    requires ParseU64(text).Some?
    ensures Digits1(whole) && Value(whole) == ParseU64(text).value
    ensures text == (if plus then "+" else "") + whole
  {
    plus := |text| > 0 && text[0] == '+';
    whole := if plus then text[1..] else text;
    if plus {
      assert text == [text[0]] + text[1..];
    }
  }

  lemma NoFraction(s: SecondsSpelling)
    requires s.fraction.None?
    ensures SpellSecondsText(s) == (if s.plus then "+" else "") + s.whole
  {
  }

  lemma SecondsWereWritten(text: string) returns (s: SecondsSpelling)
    requires ParseSeconds(text).Ok?
    ensures WellFormedSeconds(s) && SpellSecondsText(s) == text
    ensures ParseSeconds(text).value == Seconds(Value(s.whole), FractionNanos(s.fraction))
  {
    var dot := Find(text, '.');
    if dot.None? {
      var plus, whole := WholeWasWritten(text);
      s := SecondsSpelling(plus, whole, None);
      NoFraction(s);
    } else {
      s := FractionWasWritten(text, text[..dot.value], text[dot.value + 1..]);
    }
  }

  lemma FractionWasWritten(text: string, w: string, f: string) returns (s: SecondsSpelling)
    requires ParseSeconds(text).Ok? && Find(text, '.') == Some(|w|)
    requires |w| < |text| && w == text[..|w|] && f == text[|w| + 1..]
    ensures WellFormedSeconds(s) && SpellSecondsText(s) == text
    ensures ParseSeconds(text).value == Seconds(Value(s.whole), FractionNanos(s.fraction))
  {
    var plus, whole := WholeWasWritten(w);
    s := SecondsSpelling(plus, whole, Some(f));
    SplitAt(text, |w|, '.');
    PadNineValue(f);
  }

  // ---- the time part ----

  /** The seconds and nanoseconds of a tail, added to what came before it. */
  function AddTail(total: nat, seconds: Option<SecondsSpelling>): MirrorResult<Seconds>
    requires seconds.Some? ==> WellFormedSeconds(seconds.value)
  {
    if seconds.None? then Ok(Seconds(total, 0))
    else if total + Value(seconds.value.whole) > MAX_U64 then Err(BadDuration)
    else Ok(Seconds(total + Value(seconds.value.whole), FractionNanos(seconds.value.fraction)))
  }

  /** The text after the whole components: nothing, or seconds ending in their only letter. */
  lemma TailWritten(total: nat, seconds: Option<SecondsSpelling>)
    requires total <= MAX_U64 && (seconds.Some? ==> WellFormedSeconds(seconds.value))
    ensures ParseTail(Progress(total, SpellSeconds(seconds))) == AddTail(total, seconds)
  {
    if seconds.Some? {
      var text := SpellSeconds(seconds);
      assert text[..|text| - 1] == SpellSecondsText(seconds.value);
      SecondsWritten(seconds.value);
    }
  }

  lemma TailWasWritten(p: Progress) returns (seconds: Option<SecondsSpelling>)
    requires ParseTail(p).Ok?
    ensures seconds.Some? ==> WellFormedSeconds(seconds.value)
    ensures p.cursor == SpellSeconds(seconds)
    ensures ParseTail(p).value ==
      if seconds.None? then Seconds(p.total, 0)
      else Seconds(p.total + Value(seconds.value.whole), FractionNanos(seconds.value.fraction))
  {
    if |p.cursor| == 0 {
      seconds := None;
    } else {
      var body := p.cursor[..|p.cursor| - 1];
      var s := SecondsWereWritten(body);
      seconds := Some(s);
      assert p.cursor == body + "S";
    }
  }

  /** Seconds text carries no letter but its own. */
  lemma SecondsLetters(seconds: Option<SecondsSpelling>, c: char)
    requires seconds.Some? ==> WellFormedSeconds(seconds.value)
    requires !IsDigit(c) && c != 'S' && c != '.' && c != '+'
    ensures c !in SpellSeconds(seconds)
  {
    if seconds.Some? {
      DigitsOnly(seconds.value.whole, c);
      if seconds.value.fraction.Some? {
        DigitsOnly(seconds.value.fraction.value, c);
      }
    }
  }

  lemma UnitLetters(digits: Option<string>, unit: char, c: char)
    requires digits.Some? ==> Digits1(digits.value)
    requires !IsDigit(c) && c != unit
    ensures c !in SpellUnit(digits, unit)
  {
    if digits.Some? {
      DigitsOnly(digits.value, c);
    }
  }

  lemma MinutesWritten(total: nat, t: TimeSpelling)
    requires WellFormedTime(t) && total <= MAX_U64
    ensures var minutes := total + Units(t.minutes) * SECONDS_PER_MINUTE;
      ParseAfterHours(Progress(total, SpellAfterHours(t))) ==
      if minutes > MAX_U64 then Err(BadDuration) else ParseTail(Progress(minutes, SpellSeconds(t.seconds)))
  {
    SecondsLetters(t.seconds, 'M');
    AddWritten(total, t.minutes, 'M', SECONDS_PER_MINUTE, SpellSeconds(t.seconds));
  }

  /** The outcome of adding so many seconds to a running total, with a fraction to follow. */
  function Sum(total: nat, seconds: nat, nanos: nat): MirrorResult<Seconds> {
    if total + seconds > MAX_U64 then Err(BadDuration) else Ok(Seconds(total + seconds, nanos))
  }

  lemma AddTailIsSum(total: nat, t: TimeSpelling)
    requires WellFormedTime(t) && total + Units(t.minutes) * SECONDS_PER_MINUTE <= MAX_U64
    ensures AddTail(total + Units(t.minutes) * SECONDS_PER_MINUTE, t.seconds) == Sum(total, AfterHoursSeconds(t), TimeNanos(t))
  {
  }

  lemma AfterHoursWritten(total: nat, t: TimeSpelling)
    requires WellFormedTime(t) && total <= MAX_U64
    ensures ParseAfterHours(Progress(total, SpellAfterHours(t))) == Sum(total, AfterHoursSeconds(t), TimeNanos(t))
  {
    hide ParseAfterHours, ParseTail;
    var minutes := total + Units(t.minutes) * SECONDS_PER_MINUTE;
    MinutesWritten(total, t);
    if minutes <= MAX_U64 {
      TailWritten(minutes, t.seconds);
      AddTailIsSum(total, t);
    }
  }

  lemma HoursWritten(total: nat, t: TimeSpelling)
    requires WellFormedTime(t) && total <= MAX_U64
    ensures ParseTimePart(total, SpellTime(t)) ==
      var hours := total + Units(t.hours) * SECONDS_PER_HOUR;
      if hours > MAX_U64 then Err(BadDuration) else ParseAfterHours(Progress(hours, SpellAfterHours(t)))
  {
    SecondsLetters(t.seconds, 'H');
    UnitLetters(t.minutes, 'M', 'H');
    TimeNotEmpty(t);
    AddWritten(total, t.hours, 'H', SECONDS_PER_HOUR, SpellAfterHours(t));
  }

  lemma TimeWritten(total: nat, t: TimeSpelling)
    requires WellFormedTime(t) && total <= MAX_U64
    ensures ParseTimePart(total, SpellTime(t)) == Sum(total, TimeSeconds(t), TimeNanos(t))
  {
    hide ParseTimePart, ParseAfterHours;
    var hours := total + Units(t.hours) * SECONDS_PER_HOUR;
    HoursWritten(total, t);
    if hours <= MAX_U64 {
      AfterHoursWritten(hours, t);
    }
  }

  lemma TimeNotEmpty(t: TimeSpelling)
    requires WellFormedTime(t)
    ensures |SpellTime(t)| > 0
  {
  }

  lemma TimeWasWritten(total: nat, text: string) returns (t: TimeSpelling)
    requires ParseTimePart(total, text).Ok?
    ensures WellFormedTime(t) && SpellTime(t) == text
    ensures ParseTimePart(total, text).value == Seconds(total + TimeSeconds(t), TimeNanos(t))
  {
    var start := Progress(total, text);
    var hours := AddedWasWritten(start, 'H', SECONDS_PER_HOUR);
    var h := AddComponent(start, 'H', SECONDS_PER_HOUR).value;
    var minutes := AddedWasWritten(h, 'M', SECONDS_PER_MINUTE);
    var m := AddComponent(h, 'M', SECONDS_PER_MINUTE).value;
    var seconds := TailWasWritten(m);
    t := TimeSpelling(hours, minutes, seconds);
    assert |text| > 0;
  }

  // ---- the whole duration ----

  lemma DateWritten(days: Option<string>)
    requires days.Some? ==> Digits1(days.value)
    ensures ParseDatePart(SpellUnit(days, 'D')) ==
      if Units(days) * SECONDS_PER_DAY > MAX_U64 then Err(BadDuration) else Ok(Units(days) * SECONDS_PER_DAY)
  {
    AddWritten(0, days, 'D', SECONDS_PER_DAY, "");
    assert SpellUnit(days, 'D') + "" == SpellUnit(days, 'D');
  }

  lemma DateWasWritten(date: string) returns (days: Option<string>)
    requires ParseDatePart(date).Ok?
    ensures days.Some? ==> Digits1(days.value)
    ensures date == SpellUnit(days, 'D') && ParseDatePart(date).value == Units(days) * SECONDS_PER_DAY
  {
    days := AddedWasWritten(Progress(0, date), 'D', SECONDS_PER_DAY);
    assert SpellUnit(days, 'D') + "" == SpellUnit(days, 'D');
  }

  lemma FieldsWithoutTime(date: string)
    requires 'T' !in date
    ensures ParseFields(date) == (var days := ParseDatePart(date); if days.Err? then Err(days.error) else Ok(Seconds(days.value, 0)))
  {
    FindNowhere(date, 'T');
  }

  lemma FieldsWithTime(date: string, time: string)
    requires 'T' !in date
    ensures ParseFields(date + ['T'] + time) ==
      (var days := ParseDatePart(date); if days.Err? then Err(days.error) else ParseTimePart(days.value, time))
  {
    var rest := date + ['T'] + time;
    FindAt(date, 'T', time);
    assert rest[..|date|] == date && rest[|date| + 1..] == time;
  }

  lemma FieldsWritten(sp: Spelling)
    requires WellFormed(sp)
    ensures ParseFields(SpellFields(sp)) == Sum(0, TotalSeconds(sp).whole, TotalSeconds(sp).nanos)
  {
    hide ParseFields, ParseDatePart, ParseTimePart;
    var date, days := SpellUnit(sp.days, 'D'), Units(sp.days) * SECONDS_PER_DAY;
    UnitLetters(sp.days, 'D', 'T');
    DateWritten(sp.days);
    if sp.time.None? {
      FieldsWithoutTime(date);
    } else {
      FieldsWithTime(date, SpellTime(sp.time.value));
      if days <= MAX_U64 {
        TimeWritten(days, sp.time.value);
      }
    }
  }

  /** A well-formed spelling carries neither a year nor a month. */
  lemma NoCalendarComponent(sp: Spelling)
    requires WellFormed(sp)
    ensures 'Y' !in SpellFields(sp) && 'M' !in DatePart(SpellFields(sp)) && |SpellFields(sp)| > 0
  {
    var date := SpellUnit(sp.days, 'D');
    UnitLetters(sp.days, 'D', 'T');
    UnitLetters(sp.days, 'D', 'M');
    UnitLetters(sp.days, 'D', 'Y');
    if sp.time.None? {
      FindNowhere(date, 'T');
    } else {
      var t := sp.time.value;
      UnitLetters(t.hours, 'H', 'Y');
      UnitLetters(t.minutes, 'M', 'Y');
      SecondsLetters(t.seconds, 'Y');
      FindAt(date, 'T', SpellTime(t));
      assert SpellFields(sp)[..|date|] == date;
    }
  }

  /** Exactly the spelled total when a `u64` holds it, and a rejection otherwise: no intermediate
    * step overflows for a representable total.
    */
  lemma ParseSpelled(sp: Spelling)
    requires WellFormed(sp)
    ensures ParseDuration(Spell(sp)) == if Total(sp) > MAX_U64 then Err(BadDuration) else Ok(Total(sp))
  {
    hide ParseFields;
    assert Spell(sp)[1..] == SpellFields(sp);
    NoCalendarComponent(sp);
    FieldsWritten(sp);
  }

  lemma TimedFieldsWereWritten(rest: string, at: nat) returns (sp: Spelling)
    requires Find(rest, 'T') == Some(at) && ParseFields(rest).Ok?
    ensures WellFormed(sp) && rest == SpellFields(sp) && ParseFields(rest).value == TotalSeconds(sp)
  {
    hide ParseTimePart, ParseDatePart;
    var date, time := rest[..at], rest[at + 1..];
    var days := DateWasWritten(date);
    var t := TimeWasWritten(Units(days) * SECONDS_PER_DAY, time);
    sp := Spelling(days, Some(t));
    SplitAt(rest, at, 'T');
  }

  lemma FieldsWereWritten(rest: string) returns (sp: Spelling)
    requires ParseFields(rest).Ok? && |rest| > 0
    ensures WellFormed(sp) && rest == SpellFields(sp) && ParseFields(rest).value == TotalSeconds(sp)
  {
    var at := Find(rest, 'T');
    if at.None? {
      var days := DateWasWritten(rest);
      sp := Spelling(days, None);
    } else {
      sp := TimedFieldsWereWritten(rest, at.value);
    }
  }

  /** Nothing else is accepted: an accepted string is a spelling, and its value is that total. */
  lemma ParsedWasSpelled(value: string) returns (sp: Spelling)
    requires ParseDuration(value).Ok?
    ensures WellFormed(sp) && value == Spell(sp) && ParseDuration(value).value == Total(sp) <= MAX_U64
  {
    var rest := value[1..];
    sp := FieldsWereWritten(rest);
    assert value == "P" + rest;
  }

  /** Acceptance in both directions, as one statement. */
  ghost predicate Spells(value: string, nanos: nat) {
    exists sp :: WellFormed(sp) && value == Spell(sp) && nanos == Total(sp)
  }

  lemma DurationExact(value: string, nanos: nat)
    ensures ParseDuration(value) == Ok(nanos) <==> Spells(value, nanos) && nanos <= MAX_U64
  {
    if ParseDuration(value) == Ok(nanos) {
      var sp := ParsedWasSpelled(value);
    }
    if Spells(value, nanos) {
      var sp :| WellFormed(sp) && value == Spell(sp) && nanos == Total(sp);
      ParseSpelled(sp);
    }
  }

  // ---- the one spelling outside the documented grammar ----

  /** A plus sign is written before the seconds. */
  predicate HasPlus(sp: Spelling) {
    sp.time.Some? && sp.time.value.seconds.Some? && sp.time.value.seconds.value.plus
  }

  lemma PlusInSeconds(s: SecondsSpelling)
    requires WellFormedSeconds(s)
    ensures '+' in SpellSecondsText(s) <==> s.plus
  {
    DigitsOnly(s.whole, '+');
    if s.fraction.Some? {
      DigitsOnly(s.fraction.value, '+');
    }
    if s.plus {
      assert SpellSecondsText(s)[0] == '+';
    }
  }

  lemma PlusInTime(t: TimeSpelling)
    requires WellFormedTime(t)
    ensures '+' in SpellTime(t) <==> t.seconds.Some? && t.seconds.value.plus
  {
    UnitLetters(t.hours, 'H', '+');
    UnitLetters(t.minutes, 'M', '+');
    if t.seconds.Some? {
      PlusInSeconds(t.seconds.value);
    }
  }

  lemma PlusShows(sp: Spelling)
    requires WellFormed(sp)
    ensures '+' in Spell(sp) <==> HasPlus(sp)
  {
    UnitLetters(sp.days, 'D', '+');
    if sp.time.Some? {
      PlusInTime(sp.time.value);
    }
  }

  /** `value` spells `nanos` in the documented grammar, which has no sign. */
  ghost predicate Documented(value: string, nanos: nat) {
    exists sp :: WellFormed(sp) && !HasPlus(sp) && value == Spell(sp) && nanos == Total(sp)
  }

  /** The parser is the documented grammar exactly on texts without a plus sign. */
  lemma DocumentedExact(value: string, nanos: nat)
    ensures Documented(value, nanos) && nanos <= MAX_U64 <==> ParseDuration(value) == Ok(nanos) && '+' !in value
  {
    if Documented(value, nanos) && nanos <= MAX_U64 {
      var sp :| WellFormed(sp) && !HasPlus(sp) && value == Spell(sp) && nanos == Total(sp);
      PlusShows(sp);
      ParseSpelled(sp);
    }
    if ParseDuration(value) == Ok(nanos) && '+' !in value {
      var sp := ParsedWasSpelled(value);
      PlusShows(sp);
    }
  }

  /** A sign the grammar does not have gets through. */
  lemma PlusIsAccepted()
    ensures ParseDuration("PT+5S") == Ok(5 * NANOS_PER_SECOND)
    ensures forall nanos: nat :: !Documented("PT+5S", nanos)
  {
    PlusFive();
    assert '+' in "PT+5S" by {
      assert "PT+5S"[2] == '+';
    }
    forall nanos: nat
      ensures !Documented("PT+5S", nanos)
    {
      DocumentedHasNoPlus("PT+5S", nanos);
    }
  }

  lemma DocumentedHasNoPlus(value: string, nanos: nat)
    ensures Documented(value, nanos) ==> '+' !in value
  {
    if Documented(value, nanos) {
      var sp :| WellFormed(sp) && !HasPlus(sp) && value == Spell(sp) && nanos == Total(sp);
      PlusShows(sp);
    }
  }

  lemma PlusFive()
    ensures ParseDuration("PT+5S") == Ok(5 * NANOS_PER_SECOND)
  {
    var sp := PlusFiveSpelling();
    ParseSpelled(sp);
  }

  lemma PlusFiveSpelling() returns (sp: Spelling)
    ensures WellFormed(sp) && Spell(sp) == "PT+5S" && Total(sp) == 5 * NANOS_PER_SECOND
  {
    sp := Spelling(None, Some(TimeSpelling(None, None, Some(SecondsSpelling(true, "5", None)))));
    assert AllDigits("5") && Value("5") == 5 by { assert "5"[..0] == ""; }
    assert SpellSecondsText(SecondsSpelling(true, "5", None)) == "+5";
  }
}
