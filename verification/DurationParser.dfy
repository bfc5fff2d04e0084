/** `parse_iso8601_duration_nanos`: a running total, a cursor, and two loops. */
module DurationParser {
  import opened Wrappers
  import opened Bits
  import opened Encoding
  import opened Digits
  import opened Duration

  /** The components a time part may carry before its seconds, in order. */
  const TIME_UNITS: seq<(char, nat)> := [('H', SECONDS_PER_HOUR), ('M', SECONDS_PER_MINUTE)]

  /** What is still to be parsed once the first `i` units are behind the cursor. */
  function AfterUnits(i: nat, p: Progress): MirrorResult<Seconds> {
    if i == 0 then
      var h :- AddComponent(p, 'H', SECONDS_PER_HOUR);
      ParseAfterHours(h)
    else if i == 1 then ParseAfterHours(p)
    else ParseTail(p)
  }

  lemma NextUnit(i: nat, p: Progress)
    requires i < 2
    ensures AfterUnits(i, p) ==
      var added := AddComponent(p, TIME_UNITS[i].0, TIME_UNITS[i].1);
      if added.Err? then Err(added.error) else AfterUnits(i + 1, added.value)
  {
  }

  /** One optional component: multiply and add, both checked. */
  method Take(total: nat, cursor: string, unit: char, secondsPerUnit: nat) returns (r: MirrorResult<Progress>)
    ensures r == AddComponent(Progress(total, cursor), unit, secondsPerUnit)
  {
    var taken :- TakeComponent(cursor, unit);
    match taken
    case NoComponent => r := Ok(Progress(total, cursor));
    case Component(n, remainder) =>
      var seconds := n * secondsPerUnit;
      if seconds > MAX_U64 || total + seconds > MAX_U64 {
        return Err(BadDuration);
      }
      r := Ok(Progress(total + seconds, remainder));
  }

  /** Fewer than nine fraction digits pad with zeros. */
  method Pad(f: string) returns (digits: string)
    ensures digits == PadNine(f)
  {
    digits := f;
    while |digits| < 9
      invariant PadNine(digits) == PadNine(f)
      decreases 9 - |digits|
    {
      digits := digits + "0";
    }
  }

  method SecondsPart(text: string) returns (r: MirrorResult<Seconds>)
    ensures r == ParseSeconds(text)
  {
    if |text| == 0 {
      return Err(BadDuration);
    }
    var dot := Find(text, '.');
    var whole, nanos := text, 0;
    if dot.Some? {
      var f := text[dot.value + 1..];
      if |f| == 0 || !AllDigits(f) {
        return Err(BadDuration);
      }
      if |f| > 9 {
        return Err(DurationFractionTooLong);
      }
      var digits := Pad(f);
      whole, nanos := text[..dot.value], Value(digits);
    }
    var parsed := ParseU64(whole);
    if parsed.None? {
      return Err(BadDuration);
    }
    r := Ok(Seconds(parsed.value, nanos));
  }

  /** The part after `T`. */
  method TimePart(days: nat, time: string) returns (r: MirrorResult<Seconds>)
    ensures r == ParseTimePart(days, time)
  {
    if |time| == 0 {
      return Err(BadDuration);
    }
    var total: nat, cursor: string := days, time;
    var i := 0;
    while i < |TIME_UNITS|
      invariant 0 <= i <= |TIME_UNITS|
      invariant AfterUnits(i, Progress(total, cursor)) == AfterUnits(0, Progress(days, time))
    {
      NextUnit(i, Progress(total, cursor));
      var added :- Take(total, cursor, TIME_UNITS[i].0, TIME_UNITS[i].1);
      total, cursor := added.total, added.cursor;
      i := i + 1;
    }
    if |cursor| == 0 {
      return Ok(Seconds(total, 0));
    }
    if cursor[|cursor| - 1] != 'S' {
      return Err(BadDuration);
    }
    var seconds :- SecondsPart(cursor[..|cursor| - 1]);
    if total + seconds.whole > MAX_U64 {
      return Err(BadDuration);
    }
    r := Ok(Seconds(total + seconds.whole, seconds.nanos));
  }

  /** The whole parse. */
  method Parse(value: string) returns (r: MirrorResult<nat>)
    ensures r == ParseDuration(value)
  {
    if |value| == 0 || value[0] != 'P' {
      return Err(BadDuration);
    }
    var rest := value[1..];
    if |rest| == 0 {
      return Err(BadDuration);
    }
    if 'Y' in rest {
      return Err(ProhibitedDurationComponent('Y'));
    }
    var t := Find(rest, 'T');
    var date := if t.Some? then rest[..t.value] else rest;
    if 'M' in date {
      return Err(ProhibitedDurationComponent('M'));
    }
    var days :- Take(0, date, 'D', SECONDS_PER_DAY);
    if |days.cursor| > 0 {
      return Err(BadDuration);
    }
    var total := Seconds(days.total, 0);
    if t.Some? {
      total :- TimePart(days.total, rest[t.value + 1..]);
    }
    r := ToNanos(total);
  }
}
