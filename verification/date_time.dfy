/** `java.time.LocalDateTime` as the dated records use it: parsed and formatted with the
    pattern `yyyy-MM-dd HH:mm`. Seconds and nanoseconds are kept because a LocalDateTime
    built elsewhere may carry them while the pattern cannot show them. */
module DateTime {
  import opened Wrappers
  import opened JavaText
  import opened JavaInt

  datatype LocalDateTime = LocalDateTime(year: nat, month: nat, day: nat, hour: nat, minute: nat, second: nat, nano: nat)

  predicate IsLeapYear(y: nat) {
    y % 4 == 0 && (y % 100 != 0 || y % 400 == 0)
  }

  function DaysInMonth(y: nat, m: nat): nat {
    if m == 2 then (if IsLeapYear(y) then 29 else 28)
    else if m == 4 || m == 6 || m == 9 || m == 11 then 30
    else 31
  }

  /** A calendar-valid date and time whose year the four-digit pattern can show. */
  predicate Valid(t: LocalDateTime) {
    && 1 <= t.year <= 9999
    && 1 <= t.month <= 12
    && 1 <= t.day <= DaysInMonth(t.year, t.month)
    && t.hour <= 23 && t.minute <= 59 && t.second <= 59
    && t.nano < 1_000_000_000
  }

  function Pow10(w: nat): nat {
    if w == 0 then 1 else 10 * Pow10(w - 1)
  }

  /** `n` written with exactly `width` digits, zero-padded on the left. */
  function Fixed(n: nat, width: nat): (r: string)
    ensures |r| == width && AllDigits(r)
    ensures n < Pow10(width) ==> DigitsValue(r) == n
  {
    if width == 0 then []
    else
      var r := Fixed(n / 10, width - 1) + [DigitChar(n % 10)];
      assert r[..|r| - 1] == Fixed(n / 10, width - 1);
      assert n < Pow10(width) ==> n / 10 < Pow10(width - 1);
      r
  }

  lemma DivideByTen(q: nat, r: nat)
    requires r < 10
    ensures (10 * q + r) / 10 == q && (10 * q + r) % 10 == r
  {
  }

  /** Writing the value of a digit string back at its own width gives the string again. */
  lemma {:induction false} FixedOfDigits(d: string)
    requires AllDigits(d)
    ensures Fixed(DigitsValue(d), |d|) == d
    decreases |d|
  {
    if |d| > 0 {
      var p := d[..|d| - 1];
      FixedOfDigits(p);
      var n := DigitsValue(d);
      DivideByTen(DigitsValue(p), DigitValue(d[|d| - 1]));
      assert Fixed(n, |d|) == Fixed(DigitsValue(p), |p|) + [DigitChar(DigitValue(d[|d| - 1]))];
      assert d == p + [d[|d| - 1]];
    }
  }

  /** `timestamp.format(ofPattern("yyyy-MM-dd HH:mm"))`. */
  function Format(t: LocalDateTime): string {
    DatePart(t) + " " + TimePart(t)
  }

  /** The `yyyy-MM-dd` half of the pattern. */
  function DatePart(t: LocalDateTime): string {
    Fixed(t.year, 4) + "-" + Fixed(t.month, 2) + "-" + Fixed(t.day, 2)
  }

  /** The `HH:mm` half of the pattern. */
  function TimePart(t: LocalDateTime): string {
    Fixed(t.hour, 2) + ":" + Fixed(t.minute, 2)
  }

  /** The regex `\d{4}-\d{2}-\d{2} \d{2}:\d{2}`. */
  predicate HasTimestampShape(s: string) {
    && |s| == 16
    && AllDigits(s[0..4]) && s[4] == '-' && AllDigits(s[5..7]) && s[7] == '-'
    && AllDigits(s[8..10]) && s[10] == ' ' && AllDigits(s[11..13]) && s[13] == ':'
    && AllDigits(s[14..16])
  }

  /** The value of `width` digits is below `10^width`. */
  lemma {:induction false} DigitsValueBound(s: string)
    requires AllDigits(s)
    ensures DigitsValue(s) < Pow10(|s|)
    decreases |s|
  {
    if |s| > 0 {
      DigitsValueBound(s[..|s| - 1]);
    }
  }

  /** The fields the pattern reads, before resolving: year-of-era, month, day, hour, minute. */
  function Field(s: string, i: nat, j: nat): (n: nat)
    requires HasTimestampShape(s) && (i, j) in {(0, 4), (5, 7), (8, 10), (11, 13), (14, 16)}
  {
    DigitsValue(s[i..j])
  }

  /** True when the fields are in the ranges the SMART resolver accepts: a day-of-month up
      to 31 in every month, hour 0..23, minute 0..59, and a year-of-era of at least 1. */
  predicate FieldsInRange(s: string)
    requires HasTimestampShape(s)
  {
    && 1 <= Field(s, 0, 4) && 1 <= Field(s, 5, 7) <= 12 && 1 <= Field(s, 8, 10) <= 31
    && Field(s, 11, 13) <= 23 && Field(s, 14, 16) <= 59
  }

  /** `LocalDateTime.parse(s, ofPattern("yyyy-MM-dd HH:mm"))` under the default SMART
      resolver: a day-of-month beyond the month's end becomes the last day of the month.
      `None` stands for DateTimeParseException. */
  function Parse(s: string): (r: Option<LocalDateTime>)
    ensures r.Some? <==> HasTimestampShape(s) && FieldsInRange(s)
    ensures r.Some? ==> && Valid(r.value) && r.value.second == 0 && r.value.nano == 0
                        && r.value.year == Field(s, 0, 4) && r.value.month == Field(s, 5, 7)
                        && r.value.hour == Field(s, 11, 13) && r.value.minute == Field(s, 14, 16)
                        && r.value.day == Min(Field(s, 8, 10), DaysInMonth(r.value.year, r.value.month))
  {
    if HasTimestampShape(s) && FieldsInRange(s) then
      var y := Field(s, 0, 4);
      var m := Field(s, 5, 7);
      DigitsValueBound(s[0..4]);
      Some(LocalDateTime(y, m, Min(Field(s, 8, 10), DaysInMonth(y, m)), Field(s, 11, 13), Field(s, 14, 16), 0, 0))
    else None
  }

  function Min(a: nat, b: nat): nat {
    if a <= b then a else b
  }

  lemma DatePartSlices(t: LocalDateTime)
    ensures var p := DatePart(t);
      && |p| == 10 && p[0..4] == Fixed(t.year, 4) && p[4] == '-' && p[5..7] == Fixed(t.month, 2)
      && p[7] == '-' && p[8..10] == Fixed(t.day, 2)
  {
    var p := Fixed(t.year, 4) + "-" + Fixed(t.month, 2);
    assert DatePart(t)[..7] == p;
  }

  lemma TimePartSlices(t: LocalDateTime)
    ensures var p := TimePart(t);
      && |p| == 5 && p[0..2] == Fixed(t.hour, 2) && p[2] == ':' && p[3..5] == Fixed(t.minute, 2)
  {
  }

  lemma FormatDateSlices(t: LocalDateTime)
    ensures var f := Format(t);
      && |f| == 16 && f[0..4] == Fixed(t.year, 4) && f[4] == '-' && f[5..7] == Fixed(t.month, 2)
      && f[7] == '-' && f[8..10] == Fixed(t.day, 2) && f[10] == ' '
  {
    var d := DatePart(t);
    DatePartSlices(t);
    TimePartSlices(t);
    var f := Format(t);
    assert f[..10] == d;
    assert f[0..4] == d[0..4] && f[5..7] == d[5..7] && f[8..10] == d[8..10];
  }

  lemma FormatTimeSlices(t: LocalDateTime)
    ensures var f := Format(t);
      && |f| == 16 && f[11..13] == Fixed(t.hour, 2) && f[13] == ':' && f[14..16] == Fixed(t.minute, 2)
  {
    var h := TimePart(t);
    DatePartSlices(t);
    TimePartSlices(t);
    var f := Format(t);
    assert f[11..] == h;
    assert f[11..13] == h[0..2] && f[14..16] == h[3..5];
  }

  lemma FormatSlices(t: LocalDateTime)
    ensures var f := Format(t);
      && |f| == 16
      && f[0..4] == Fixed(t.year, 4) && f[4] == '-' && f[5..7] == Fixed(t.month, 2) && f[7] == '-'
      && f[8..10] == Fixed(t.day, 2) && f[10] == ' ' && f[11..13] == Fixed(t.hour, 2)
      && f[13] == ':' && f[14..16] == Fixed(t.minute, 2)
  {
    FormatDateSlices(t);
    FormatTimeSlices(t);
  }

  /** Field values small enough for the pattern's fixed widths. */
  predicate FitsPattern(t: LocalDateTime) {
    t.year < 10000 && t.month < 100 && t.day < 100 && t.hour < 100 && t.minute < 100
  }

  /** Field values the SMART resolver accepts. */
  predicate Resolvable(t: LocalDateTime) {
    1 <= t.year && 1 <= t.month <= 12 && 1 <= t.day <= 31 && t.hour <= 23 && t.minute <= 59
  }

  /** Formatting writes each field where the parser reads it back. */
  lemma FormatFields(t: LocalDateTime)
    requires FitsPattern(t)
    ensures HasTimestampShape(Format(t))
    ensures Field(Format(t), 0, 4) == t.year && Field(Format(t), 5, 7) == t.month
    ensures Field(Format(t), 8, 10) == t.day && Field(Format(t), 11, 13) == t.hour
    ensures Field(Format(t), 14, 16) == t.minute
  {
    FormatSlices(t);
    assert Pow10(2) == 100 && Pow10(4) == 10000;
  }

  /** Parsing formatted fields succeeds exactly when the resolver accepts them, and then
      clamps the day to the month's length and drops the seconds and nanoseconds. */
  lemma ParseOfFormat(t: LocalDateTime)
    requires FitsPattern(t)
    ensures Parse(Format(t)).Some? <==> Resolvable(t)
    ensures Resolvable(t) ==>
      Parse(Format(t)) == Some(t.(day := Min(t.day, DaysInMonth(t.year, t.month)), second := 0, nano := 0))
  {
    FormatFields(t);
  }

  /** Formatting then parsing returns the timestamp, truncated to the minute. */
  lemma ParseFormat(t: LocalDateTime)
    requires Valid(t)
    ensures Parse(Format(t)) == Some(t.(second := 0, nano := 0))
  {
    ParseOfFormat(t);
  }

  /** Day 30 of February is read as the month's last day, not rejected. */
  lemma SmartResolverClampsDay()
    ensures Parse(Format(LocalDateTime(2023, 2, 30, 10, 0, 0, 0))) == Some(LocalDateTime(2023, 2, 28, 10, 0, 0, 0))
  {
    ParseOfFormat(LocalDateTime(2023, 2, 30, 10, 0, 0, 0));
  }

  /** A day beyond 31 is rejected whatever the month. */
  lemma SmartResolverRejectsDay32()
    ensures Parse(Format(LocalDateTime(2023, 1, 32, 10, 0, 0, 0))) == None
  {
    ParseOfFormat(LocalDateTime(2023, 1, 32, 10, 0, 0, 0));
  }

  /** Parsing then formatting returns the text exactly when the day was not clamped. */
  lemma FormatParse(s: string)
    requires Parse(s).Some?
    ensures Format(Parse(s).value) == s <==> Parse(s).value.day == Field(s, 8, 10)
  {
    if Parse(s).value.day != Field(s, 8, 10) {
      FormatParseDiffers(s);
    } else {
      FormatParseSame(s);
    }
  }

  lemma FormatParseDiffers(s: string)
    requires Parse(s).Some? && Parse(s).value.day != Field(s, 8, 10)
    ensures Format(Parse(s).value) != s
  {
    var t := Parse(s).value;
    FormatSlices(t);
    assert t.day < Pow10(2);
    assert DigitsValue(Format(t)[8..10]) == t.day;
  }

  lemma FormatParseSame(s: string)
    requires Parse(s).Some? && Parse(s).value.day == Field(s, 8, 10)
    ensures Format(Parse(s).value) == s
  {
    var t := Parse(s).value;
    FixedOfDigits(s[0..4]);
    FixedOfDigits(s[5..7]);
    FixedOfDigits(s[8..10]);
    FixedOfDigits(s[11..13]);
    FixedOfDigits(s[14..16]);
    assert Fixed(t.year, 4) == s[0..4] && Fixed(t.month, 2) == s[5..7] && Fixed(t.day, 2) == s[8..10];
    assert Fixed(t.hour, 2) == s[11..13] && Fixed(t.minute, 2) == s[14..16];
    assert s == s[0..4] + "-" + s[5..7] + "-" + s[8..10] + " " + s[11..13] + ":" + s[14..16];
  }

  /** A timestamp with seconds or nanoseconds does not survive the text form. */
  lemma FormatDropsSeconds(t: LocalDateTime)
    requires Valid(t) && (t.second != 0 || t.nano != 0)
    ensures Parse(Format(t)) != Some(t)
  {
    ParseFormat(t);
  }

  /** Reads an `int` as the 32 bits Java stores. */
  function Bits32(x: int): bv32 {
    (x % 0x1_0000_0000) as bv32
  }

  /** Reads 32 bits back as a signed Java `int`. */
  function Signed32(b: bv32): int {
    if b as int > INT_MAX then b as int - 0x1_0000_0000 else b as int
  }

  /** `LocalDate.hashCode()`: `(y & 0xFFFFF800) ^ ((y << 11) + (m << 6) + d)`. */
  function DateHash(t: LocalDateTime): bv32 {
    var y := Bits32(t.year);
    (y & 0xFFFF_F800) ^ ((y << 11) + (Bits32(t.month) << 6) + Bits32(t.day))
  }

  /** `LocalTime.hashCode()`: the nano-of-day folded to 32 bits. */
  function TimeHash(t: LocalDateTime): bv32 {
    var nod := ((t.hour * 60 + t.minute) * 60 + t.second) * 1_000_000_000 + t.nano;
    var b := (nod % 0x1_0000_0000_0000_0000) as bv64;
    var folded := b ^ (b >> 32);
    Bits32(folded as int)
  }

  /** `LocalDateTime.hashCode()`. */
  function Hash(t: LocalDateTime): int {
    Signed32(DateHash(t) ^ TimeHash(t))
  }
}
