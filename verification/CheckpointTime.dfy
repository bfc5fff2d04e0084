/** `checkpoint_time` text: the fixed thirty-character rendering of a `u64` of nanoseconds. */
module CheckpointTime {
  import opened Wrappers
  import opened Bits
  import opened Encoding
  import opened Digits
  import opened Calendar
  import opened TextOrder

  const TIME_LENGTH: nat := 30

  /** The literal character at a position, where there is one. */
  function LiteralAt(at: nat): Option<char> {
    if at == 4 || at == 7 then Some('-')
    else if at == 10 then Some('T')
    else if at == 13 || at == 16 then Some(':')
    else if at == 19 then Some('.')
    else if at == 29 then Some('Z')
    else None
  }

  /** `has_profile_time_shape`: thirty characters, the seven literals, digits everywhere else. */
  predicate HasShape(text: string) {
    |text| == TIME_LENGTH &&
    forall at :: 0 <= at < TIME_LENGTH ==>
      if LiteralAt(at).Some? then text[at] == LiteralAt(at).value else IsDigit(text[at])
  }

  /** The date-time a text of the right shape spells, whatever its ranges. */
  function Fields(text: string): Civil
    requires HasShape(text)
  {
    DigitRuns(text);
    Civil(Date(Value(text[0..4]), Value(text[5..7]), Value(text[8..10])),
          Clock(Value(text[11..13]), Value(text[14..16]), Value(text[17..19]), Value(text[20..29])))
  }

  lemma DigitRuns(text: string)
    requires HasShape(text)
    ensures AllDigits(text[0..4]) && AllDigits(text[5..7]) && AllDigits(text[8..10])
    ensures AllDigits(text[11..13]) && AllDigits(text[14..16]) && AllDigits(text[17..19]) && AllDigits(text[20..29])
  {
    forall from: nat, upTo: nat, i | from <= upTo <= 30 && 0 <= i < upTo - from
      ensures text[from..upTo][i] == text[from + i]
    {
    }
  }

  // ---- rendering ----

  /** A date-time as text, from the right: every part is its digits and the literal after them. */
  function SecondText(c: Clock): string {
    Render(c.second, 2) + ("." + (Render(c.nanos, 9) + "Z"))
  }

  function ClockText(c: Clock): string {
    Render(c.hour, 2) + (":" + (Render(c.minute, 2) + (":" + SecondText(c))))
  }

  function CivilText(c: Civil): string {
    Render(c.date.year, 4) + ("-" + (Render(c.date.month, 2) + ("-" + (Render(c.date.day, 2) + ("T" + ClockText(c.clock))))))
  }

  /** `render_checkpoint_time`. */
  function RenderTime(nanos: nat): string {
    CivilText(FromNanos(nanos))
  }

  // ---- parsing ----

  /** `parse_checkpoint_time`. */
  function ParseTime(text: string): MirrorResult<nat> {
    if !HasShape(text) then Err(BadCheckpointTime)
    else
      var c := Fields(text);
      if !Valid(c) then Err(BadCheckpointTime)
      else if ToNanos(c) > MAX_U64 then Err(BadCheckpointTime)
      else if RenderTime(ToNanos(c)) != text then Err(BadCheckpointTime)
      else Ok(ToNanos(c))
  }

  // ---- text and fields are inverse ----

  predicate FitsText(c: Civil) {
    && c.date.year < 10000 && c.date.month < 100 && c.date.day < 100
    && c.clock.hour < 100 && c.clock.minute < 100 && c.clock.second < 100 && c.clock.nanos < 1_000_000_000
  }

  lemma Pow10Values()
    ensures Pow10(2) == 100 && Pow10(4) == 10000 && Pow10(9) == 1_000_000_000
  {
    assert Pow10(2) == 100;
    assert Pow10(3) == 1000;
    assert Pow10(4) == 10000;
    assert Pow10(6) == 1_000_000 by { assert Pow10(5) == 100_000; }
    assert Pow10(8) == 100_000_000 by { assert Pow10(7) == 10_000_000; }
  }

  /** A text of the right shape is its digit runs and literals in order. */
  lemma ShapeIsText(text: string)
    requires HasShape(text)
    ensures text == CivilText(Fields(text)) && FitsText(Fields(text))
  {
    DigitRuns(text);
    Pow10Values();
    RunIsRendered(text[0..4]);
    RunIsRendered(text[5..7]);
    RunIsRendered(text[8..10]);
    RunIsRendered(text[11..13]);
    RunIsRendered(text[14..16]);
    RunIsRendered(text[17..19]);
    RunIsRendered(text[20..29]);
    assert text[29..] == "Z" && text[19..20] == "." && text[16..17] == ":" && text[13..14] == ":";
    assert text[10..11] == "T" && text[7..8] == "-" && text[4..5] == "-";
    Tail(text, 20, 29);
    Tail(text, 19, 20);
    Tail(text, 17, 19);
    Tail(text, 16, 17);
    Tail(text, 14, 16);
    Tail(text, 13, 14);
    Tail(text, 11, 13);
    Tail(text, 10, 11);
    Tail(text, 8, 10);
    Tail(text, 7, 8);
    Tail(text, 5, 7);
    Tail(text, 4, 5);
    Tail(text, 0, 4);
    assert text[0..] == text;
  }

  lemma Tail(text: string, from: nat, mid: nat)
    requires from <= mid <= |text|
    ensures text[from..] == text[from..mid] + text[mid..]
  {
  }

  lemma RunIsRendered(run: string)
    requires AllDigits(run)
    ensures Render(Value(run), |run|) == run && Value(run) < Pow10(|run|)
  {
    RenderOfValue(run);
    ValueBound(run);
  }

  /** `text` is the rest of a time text from position `from`. */
  ghost predicate ShapeFrom(text: string, from: nat) {
    from + |text| == TIME_LENGTH &&
    forall i :: 0 <= i < |text| ==>
      if LiteralAt(from + i).Some? then text[i] == LiteralAt(from + i).value else IsDigit(text[i])
  }

  lemma ShapeRun(run: string, rest: string, from: nat)
    requires AllDigits(run) && ShapeFrom(rest, from + |run|)
    requires forall at :: from <= at < from + |run| ==> LiteralAt(at).None?
    ensures ShapeFrom(run + rest, from)
  {
    var text := run + rest;
    forall i | 0 <= i < |text|
      ensures if LiteralAt(from + i).Some? then text[i] == LiteralAt(from + i).value else IsDigit(text[i])
    {
      if i >= |run| {
        var j := i - |run|;
        assert text[i] == rest[j] && from + i == from + |run| + j;
      }
    }
  }

  lemma ShapeLiteral(c: char, rest: string, from: nat)
    requires LiteralAt(from) == Some(c) && ShapeFrom(rest, from + 1)
    ensures ShapeFrom([c] + rest, from)
  {
    var text := [c] + rest;
    forall i | 0 <= i < |text|
      ensures if LiteralAt(from + i).Some? then text[i] == LiteralAt(from + i).value else IsDigit(text[i])
    {
      if i >= 1 {
        var j := i - 1;
        assert text[i] == rest[j] && from + i == from + 1 + j;
      }
    }
  }

  lemma CivilTextHasShape(c: Civil)
    ensures HasShape(CivilText(c))
  {
    ShapeLiteral('Z', "", 29);
    assert "Z" + "" == "Z";
    ShapeRun(Render(c.clock.nanos, 9), "Z", 20);
    ShapeLiteral('.', Render(c.clock.nanos, 9) + "Z", 19);
    ShapeRun(Render(c.clock.second, 2), "." + (Render(c.clock.nanos, 9) + "Z"), 17);
    ShapeLiteral(':', SecondText(c.clock), 16);
    ShapeRun(Render(c.clock.minute, 2), ":" + SecondText(c.clock), 14);
    ShapeLiteral(':', Render(c.clock.minute, 2) + (":" + SecondText(c.clock)), 13);
    ShapeRun(Render(c.clock.hour, 2), ":" + (Render(c.clock.minute, 2) + (":" + SecondText(c.clock))), 11);
    ShapeLiteral('T', ClockText(c.clock), 10);
    var day := "T" + ClockText(c.clock);
    ShapeRun(Render(c.date.day, 2), day, 8);
    var month := "-" + (Render(c.date.day, 2) + day);
    ShapeLiteral('-', Render(c.date.day, 2) + day, 7);
    ShapeRun(Render(c.date.month, 2), month, 5);
    ShapeLiteral('-', Render(c.date.month, 2) + month, 4);
    ShapeRun(Render(c.date.year, 4), "-" + (Render(c.date.month, 2) + month), 0);
    ShapeFromStart(CivilText(c));
  }

  lemma ShapeFromStart(text: string)
    requires ShapeFrom(text, 0)
    ensures HasShape(text)
  {
    forall at | 0 <= at < TIME_LENGTH
      ensures if LiteralAt(at).Some? then text[at] == LiteralAt(at).value else IsDigit(text[at])
    {
      assert LiteralAt(0 + at) == LiteralAt(at);
    }
  }

  // ---- order ----

  /** Two texts that begin with digit runs of one length compare by value, then by what follows. */
  lemma {:induction false} RunsCompare(a: string, b: string, x: string, y: string)
    requires |a| == |b| && AllDigits(a) && AllDigits(b)
    ensures TextLe(a + x, b + y) <==> Value(a) < Value(b) || (Value(a) == Value(b) && TextLe(x, y))
    decreases |a|
  {
    if |a| == 0 {
      assert a + x == x && b + y == y;
    } else {
      var s, t := a[1..], b[1..];
      RunsCompare(s, t, x, y);
      assert (a + x)[1..] == s + x && (b + y)[1..] == t + y;
      HeadValue(a);
      HeadValue(b);
      ValueBound(s);
      ValueBound(t);
      HeadsCompare(DigitValue(a[0]), DigitValue(b[0]), Pow10(|s|), Value(s), Value(t));
    }
  }

  lemma HeadValue(a: string)
    requires |a| >= 1 && AllDigits(a)
    ensures AllDigits(a[1..]) && Value(a) == DigitValue(a[0]) * Pow10(|a| - 1) + Value(a[1..])
  {
    ValueSplit(a[..1], a[1..]);
    assert a == a[..1] + a[1..];
    assert a[..1][..0] == "";
    assert Value(a[..1]) == DigitValue(a[0]);
  }

  lemma HeadsCompare(p: nat, q: nat, w: nat, x: nat, y: nat)
    requires x < w && y < w
    ensures p * w + x < q * w + y <==> p < q || (p == q && x < y)
    ensures p * w + x == q * w + y <==> p == q && x == y
  {
    if p < q {
      assert (q - p) * w >= w by { MulAtLeast(w, q - p); }
      assert q * w == p * w + (q - p) * w;
    } else if q < p {
      assert (p - q) * w >= w by { MulAtLeast(w, p - q); }
      assert p * w == q * w + (p - q) * w;
    }
  }

  lemma NumbersCompare(m: nat, n: nat, width: nat, x: string, y: string)
    requires m < Pow10(width) && n < Pow10(width)
    ensures TextLe(Render(m, width) + x, Render(n, width) + y) <==> m < n || (m == n && TextLe(x, y))
  {
    ValueOfRender(m, width);
    ValueOfRender(n, width);
    RunsCompare(Render(m, width), Render(n, width), x, y);
  }

  lemma LiteralsCompare(c: char, x: string, y: string)
    ensures TextLe([c] + x, [c] + y) <==> TextLe(x, y)
  {
    assert ([c] + x)[1..] == x && ([c] + y)[1..] == y;
  }

  lemma SecondsCompare(a: Clock, b: Clock)
    requires a.second < 100 && b.second < 100 && a.nanos < 1_000_000_000 && b.nanos < 1_000_000_000
    ensures TextLe(SecondText(a), SecondText(b)) <==> a.second < b.second || (a.second == b.second && a.nanos <= b.nanos)
  {
    Pow10Values();
    TextLeReflexive("Z");
    NumbersCompare(a.nanos, b.nanos, 9, "Z", "Z");
    var x, y := Render(a.nanos, 9) + "Z", Render(b.nanos, 9) + "Z";
    LiteralsCompare('.', x, y);
    NumbersCompare(a.second, b.second, 2, "." + x, "." + y);
  }

  lemma ClocksCompare(a: Clock, b: Clock)
    requires ValidClock(a) && ValidClock(b)
    ensures TextLe(ClockText(a), ClockText(b)) <==> !ClockLt(b, a)
  {
    Pow10Values();
    SecondsCompare(a, b);
    LiteralsCompare(':', SecondText(a), SecondText(b));
    NumbersCompare(a.minute, b.minute, 2, ":" + SecondText(a), ":" + SecondText(b));
    var x, y := Render(a.minute, 2) + (":" + SecondText(a)), Render(b.minute, 2) + (":" + SecondText(b));
    LiteralsCompare(':', x, y);
    NumbersCompare(a.hour, b.hour, 2, ":" + x, ":" + y);
  }

  /** The order of the texts is the order of the date-times. */
  lemma TextsCompare(a: Civil, b: Civil)
    requires Valid(a) && Valid(b) && a.date.year < 10000 && b.date.year < 10000
    ensures TextLe(CivilText(a), CivilText(b)) <==> !CivilLt(b, a)
  {
    Pow10Values();
    ClocksCompare(a.clock, b.clock);
    LiteralsCompare('T', ClockText(a.clock), ClockText(b.clock));
    var ta, tb := "T" + ClockText(a.clock), "T" + ClockText(b.clock);
    NumbersCompare(a.date.day, b.date.day, 2, ta, tb);
    var da, db := Render(a.date.day, 2) + ta, Render(b.date.day, 2) + tb;
    LiteralsCompare('-', da, db);
    NumbersCompare(a.date.month, b.date.month, 2, "-" + da, "-" + db);
    var ma, mb := Render(a.date.month, 2) + ("-" + da), Render(b.date.month, 2) + ("-" + db);
    LiteralsCompare('-', ma, mb);
    NumbersCompare(a.date.year, b.date.year, 4, "-" + ma, "-" + mb);
  }

  // ---- the round trips ----

  /** Every instant a `u64` of nanoseconds holds falls in a four-digit year. */
  lemma YearFits(nanos: nat)
    requires nanos <= MAX_U64
    ensures FromNanos(nanos).date.year < 10000
  {
    FromNanosIsRight(nanos);
    var d := FromNanos(nanos).date;
    YearsAreLong(d.year);
    assert DayNumber(d) * NANOS_PER_DAY <= MAX_U64;
  }

  lemma {:induction false} YearsAreLong(year: nat)
    requires year >= EPOCH_YEAR
    ensures DaysBeforeYear(year) >= 365 * (year - EPOCH_YEAR)
    decreases year
  {
    if year <= EPOCH_YEAR {
    } else {
      YearsAreLong(year - 1);
    }
  }

  /** Fields read back from a rendered text are the fields it was rendered from. */
  lemma FieldsOfText(c: Civil)
    requires Valid(c) && c.date.year < 10000
    ensures HasShape(CivilText(c)) && Fields(CivilText(c)) == c
  {
    CivilTextHasShape(c);
    var e := Fields(CivilText(c));
    ShapeIsText(CivilText(c));
    SameTextSameFields(c, e);
  }

  /** The text of a date-time determines every number in it that fits its width. */
  lemma SameTextSameFields(a: Civil, b: Civil)
    requires FitsText(a) && FitsText(b) && CivilText(a) == CivilText(b)
    ensures a == b
  {
    Pow10Values();
    var ra, rb := TextAfterYear(a), TextAfterYear(b);
    SamePrefix(a.date.year, b.date.year, 4, "-" + ra, "-" + rb);
    assert ("-" + ra)[1..] == ra && ("-" + rb)[1..] == rb;
    SameAfterYear(a, b);
  }

  function TextAfterYear(c: Civil): string {
    Render(c.date.month, 2) + ("-" + (Render(c.date.day, 2) + ("T" + ClockText(c.clock))))
  }

  lemma SameAfterYear(a: Civil, b: Civil)
    requires FitsText(a) && FitsText(b) && TextAfterYear(a) == TextAfterYear(b)
    ensures a.date.month == b.date.month && a.date.day == b.date.day && a.clock == b.clock
  {
    Pow10Values();
    var ta, tb := "T" + ClockText(a.clock), "T" + ClockText(b.clock);
    var da, db := Render(a.date.day, 2) + ta, Render(b.date.day, 2) + tb;
    SamePrefix(a.date.month, b.date.month, 2, "-" + da, "-" + db);
    assert ("-" + da)[1..] == da && ("-" + db)[1..] == db;
    SamePrefix(a.date.day, b.date.day, 2, ta, tb);
    assert ta[1..] == ClockText(a.clock) && tb[1..] == ClockText(b.clock);
    SameClock(a.clock, b.clock);
  }

  lemma SameClock(a: Clock, b: Clock)
    requires a.hour < 100 && a.minute < 100 && a.second < 100 && a.nanos < 1_000_000_000
    requires b.hour < 100 && b.minute < 100 && b.second < 100 && b.nanos < 1_000_000_000
    requires ClockText(a) == ClockText(b)
    ensures a == b
  {
    Pow10Values();
    var sa, sb := SecondText(a), SecondText(b);
    var ma, mb := Render(a.minute, 2) + (":" + sa), Render(b.minute, 2) + (":" + sb);
    SamePrefix(a.hour, b.hour, 2, ":" + ma, ":" + mb);
    assert (":" + ma)[1..] == ma && (":" + mb)[1..] == mb;
    SamePrefix(a.minute, b.minute, 2, ":" + sa, ":" + sb);
    assert (":" + sa)[1..] == sa && (":" + sb)[1..] == sb;
    var na, nb := Render(a.nanos, 9) + "Z", Render(b.nanos, 9) + "Z";
    SamePrefix(a.second, b.second, 2, "." + na, "." + nb);
    assert ("." + na)[1..] == na && ("." + nb)[1..] == nb;
    SamePrefix(a.nanos, b.nanos, 9, "Z", "Z");
  }

  lemma SamePrefix(m: nat, n: nat, width: nat, x: string, y: string)
    requires m < Pow10(width) && n < Pow10(width) && Render(m, width) + x == Render(n, width) + y
    ensures m == n && x == y
  {
    ValueOfRender(m, width);
    ValueOfRender(n, width);
    var s, t := Render(m, width) + x, Render(n, width) + y;
    assert s[..width] == Render(m, width) && t[..width] == Render(n, width);
    assert s[width..] == x && t[width..] == y;
  }

  /** Rendering then parsing gives the instant back, for every `u64`. */
  lemma ParseRendered(nanos: nat)
    requires nanos <= MAX_U64
    ensures ParseTime(RenderTime(nanos)) == Ok(nanos)
  {
    YearFits(nanos);
    FromNanosIsRight(nanos);
    FieldsOfText(FromNanos(nanos));
  }

  /** A text is accepted exactly when it is the rendering of the instant it is read as. */
  lemma ParseExact(text: string, nanos: nat)
    ensures ParseTime(text) == Ok(nanos) <==> nanos <= MAX_U64 && text == RenderTime(nanos)
  {
    if nanos <= MAX_U64 && text == RenderTime(nanos) {
      ParseRendered(nanos);
    }
  }

  /** Shape and ranges decide acceptance: the final comparison with the re-rendering never refuses. */
  lemma ReRenderNeverRefuses(text: string)
    requires HasShape(text) && Valid(Fields(text)) && ToNanos(Fields(text)) <= MAX_U64
    ensures ParseTime(text) == Ok(ToNanos(Fields(text)))
  {
    ShapeIsText(text);
    FromToNanos(Fields(text));
  }

  /** Text order is time order: the series SQLite orders by text is ordered by instant. */
  lemma TextOrderIsTimeOrder(a: string, b: string)
    requires ParseTime(a).Ok? && ParseTime(b).Ok?
    ensures TextLe(a, b) <==> ParseTime(a).value <= ParseTime(b).value
    ensures a == b <==> ParseTime(a).value == ParseTime(b).value
  {
    ParseExact(a, ParseTime(a).value);
    ParseExact(b, ParseTime(b).value);
    var ca, cb := FromNanos(ParseTime(a).value), FromNanos(ParseTime(b).value);
    FromNanosIsRight(ParseTime(a).value);
    FromNanosIsRight(ParseTime(b).value);
    YearFits(ParseTime(a).value);
    YearFits(ParseTime(b).value);
    TextsCompare(ca, cb);
    ToNanosExact(cb, ca);
  }
}
