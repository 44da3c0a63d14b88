/** What CcaPoints and Demerit share: a `DESCRIPTION|yyyy-MM-dd HH:mm` text, its
    validator, its two constructors and the facts relating them. The two classes differ
    only in their message and their runtime class, which `RecordClass` selects. */
module DatedRecord {
  import opened Wrappers
  import opened Exceptions
  import opened JavaText
  import opened JavaInt
  import opened DateTime
  import opened PersonAttribute

  datatype RecordClass = CcaPointsRecord | DemeritRecord

  /** The attribute of class `c` with the given stored text and payload. */
  function Make(c: RecordClass, value: string, description: string, timestamp: LocalDateTime): (a: Attribute)
    ensures c == CcaPointsRecord <==> a.CcaPoints?
    ensures c == DemeritRecord <==> a.Demerit?
    ensures (a.CcaPoints? || a.Demerit?) && a.value == value && a.description == description && a.timestamp == timestamp
  {
    match c
    case CcaPointsRecord => CcaPoints(value, description, timestamp)
    case DemeritRecord => Demerit(value, description, timestamp)
  }

  /** A full match of `.+\|\d{4}-\d{2}-\d{2} \d{2}:\d{2}`: the timestamp shape fixes the
      position of the last bar, and `.+` is a non-empty run without line terminators. */
  predicate MatchesRecordRegex(s: string) {
    && |s| >= 18
    && NoLineTerminators(s[..|s| - 17])
    && s[|s| - 17] == '|'
    && HasTimestampShape(s[|s| - 16..])
  }

  /** `split("\\|", 2)` cuts at the first bar: `parts[0]` is the text before it and
      `parts[1]` everything after it; without a bar there is no `parts[1]`. */
  function Before(s: string, i: int): string
    requires 0 <= i < |s|
  {
    s[..i]
  }

  function After(s: string, i: int): string
    requires 0 <= i < |s|
  {
    s[i + 1..]
  }

  /** `isValidCcaPoints` / `isValidDemerit`: the regex, a parsable trimmed timestamp after
      the first bar and a description that is not blank once trimmed. */
  predicate IsValidRecord(s: string) {
    && MatchesRecordRegex(s)
    && var i := IndexOf(s, '|');
    && i >= 0
    && Parse(Trim(After(s, i))).Some?
    && Trim(Before(s, i)) != ""
  }

  /** The string constructor. It does not validate: a text without a bar fails on
      `parts[1]`, an unparsable timestamp fails in `LocalDateTime.parse`, and anything else
      is accepted with the trimmed description. */
  function FromString(c: RecordClass, s: string): (r: Result<Attribute, Exception>)
    ensures IndexOf(s, '|') < 0 ==> r == Failure(ArrayIndexOutOfBounds)
    ensures IndexOf(s, '|') >= 0 ==> var i := IndexOf(s, '|');
      && (r.Failure? <==> Parse(Trim(After(s, i))).None?)
      && (r.Failure? ==> r.error == DateTimeParse)
      && (r.Success? ==> r.value == Make(c, s, Trim(Before(s, i)), Parse(Trim(After(s, i))).value))
  {
    var i := IndexOf(s, '|');
    if i < 0 then Failure(ArrayIndexOutOfBounds)
    else
      match Parse(Trim(After(s, i)))
      case None => Failure(DateTimeParse)
      case Some(t) => Success(Make(c, s, Trim(Before(s, i)), t))
  }

  /** The text the `(description, timestamp)` constructor stores. */
  function Render(description: string, timestamp: LocalDateTime): (s: string)
    requires Valid(timestamp)
    ensures |s| == |description| + 17 && s[..|description|] == description && s[|description|] == '|'
    ensures s[|description| + 1..] == Format(timestamp)
  {
    description + "|" + Format(timestamp)
  }

  /** The `(description, timestamp)` constructor: no check at all. A well-formed
      description makes the stored text valid, and the string constructor reads it back
      as the trimmed description and the timestamp without its seconds and nanoseconds. */
  function Of(c: RecordClass, description: string, timestamp: LocalDateTime): (a: Attribute)
    requires Valid(timestamp)
    ensures a == Make(c, Render(description, timestamp), description, timestamp)
    ensures WellFormedDescription(description) ==>
      && IsValidRecord(a.value)
      && FromString(c, a.value) == Success(Make(c, a.value, Trim(description), timestamp.(second := 0, nano := 0)))
  {
    if WellFormedDescription(description) then
      RenderedRecordIsValid(c, description, timestamp);
      Make(c, Render(description, timestamp), description, timestamp)
    else
      Make(c, Render(description, timestamp), description, timestamp)
  }

  /** What the validator asks of a description: no bar, a single line, not blank. */
  predicate WellFormedDescription(d: string) {
    '|' !in d && NoLineTerminators(d) && !AllTrimmable(d)
  }

  /** A reference reading of the validator: a non-blank, bar-free, single-line description,
      one bar, and a parsable timestamp filling the rest. */
  predicate WellFormedRecordText(s: string) {
    && |s| >= 18
    && var description := s[..|s| - 17];
    && '|' !in description
    && NoLineTerminators(description)
    && !AllTrimmable(description)
    && s[|s| - 17] == '|'
    && Parse(s[|s| - 16..]).Some?
  }

  lemma ShapeHasNoBar(x: string)
    requires HasTimestampShape(x)
    ensures '|' !in x
  {
    forall k | 0 <= k < |x|
      ensures x[k] != '|'
    {
      if k < 4 { assert x[0..4][k] == x[k]; }
      else if 5 <= k < 7 { assert x[5..7][k - 5] == x[k]; }
      else if 8 <= k < 10 { assert x[8..10][k - 8] == x[k]; }
      else if 11 <= k < 13 { assert x[11..13][k - 11] == x[k]; }
      else if 14 <= k { assert x[14..16][k - 14] == x[k]; }
    }
  }

  /** A timestamp-shaped text starts and ends with a digit, so `trim()` keeps it whole. */
  lemma ShapeIsTrimmed(x: string)
    requires HasTimestampShape(x)
    ensures Trim(x) == x
  {
    assert x[0..4][0] == x[0];
    assert x[14..16][1] == x[15];
    assert TrimStart(x) == x;
    assert TrimEnd(x) == x;
  }

  /** No timestamp text contains a bar. */
  lemma BarBlocksParse(x: string)
    ensures '|' in x ==> Parse(x).None?
  {
    if HasTimestampShape(x) {
      ShapeHasNoBar(x);
    }
  }

  /** `IndexOf` finds the first bar. */
  lemma FirstBarAt(s: string, i: int)
    requires 0 <= i < |s| && s[i] == '|' && '|' !in s[..i]
    ensures IndexOf(s, '|') == i
  {
    forall k | 0 <= k < i
      ensures s[k] != '|'
    {
      assert s[..i][k] == s[k];
    }
  }

  /** When the regex matches but an earlier bar exists, the text after the first bar holds
      a bar and cannot be a timestamp. */
  lemma EarlyBarInvalidates(s: string)
    requires MatchesRecordRegex(s)
    ensures IndexOf(s, '|') != |s| - 17 ==> !IsValidRecord(s)
  {
    var i := IndexOf(s, '|');
    if i != |s| - 17 {
      assert 0 <= i < |s| - 17 by { assert s[|s| - 17] == '|'; }
      var rest := After(s, i);
      var j := |s| - 18 - i;
      assert rest[j] == s[|s| - 17];
      TrimKeepsVisible(rest, j);
      BarBlocksParse(Trim(rest));
    }
  }

  /** The validator agrees with the reference reading, in both directions. */
  lemma ValidRecordIffWellFormed(s: string)
    ensures IsValidRecord(s) <==> WellFormedRecordText(s)
  {
    if IsValidRecord(s) {
      EarlyBarInvalidates(s);
      var n := |s| - 17;
      assert Before(s, n) == s[..n] && After(s, n) == s[n + 1..];
      ShapeIsTrimmed(s[n + 1..]);
      TrimEmptyIffBlank(s[..n]);
    }
    if WellFormedRecordText(s) {
      var n := |s| - 17;
      FirstBarAt(s, n);
      assert Before(s, n) == s[..n] && After(s, n) == s[n + 1..];
      ShapeIsTrimmed(s[n + 1..]);
      TrimEmptyIffBlank(s[..n]);
      assert MatchesRecordRegex(s);
    }
  }

  /** A bar inside the description, or a blank description, makes the text invalid. */
  lemma BarOrBlankDescriptionRejected(s: string)
    requires |s| >= 18
    ensures '|' in s[..|s| - 17] ==> !IsValidRecord(s)
    ensures AllTrimmable(s[..|s| - 17]) ==> !IsValidRecord(s)
  {
    ValidRecordIffWellFormed(s);
  }

  /** What the `(description, timestamp)` constructor writes is valid whenever the
      description is, and reading it back gives the trimmed description and the timestamp
      without its seconds and nanoseconds. */
  lemma RenderedRecordIsValid(c: RecordClass, description: string, t: LocalDateTime)
    requires '|' !in description && NoLineTerminators(description) && !AllTrimmable(description)
    requires Valid(t)
    ensures IsValidRecord(Render(description, t))
    ensures FromString(c, Render(description, t)) == Success(Make(c, Render(description, t), Trim(description), t.(second := 0, nano := 0)))
  {
    var s := Render(description, t);
    assert IsValidRecord(s) by {
      RenderedWellFormed(description, t);
      ValidRecordIffWellFormed(s);
    }
    var n := |description|;
    assert IndexOf(s, '|') == n by {
      assert s[..n] == description;
      FirstBarAt(s, n);
    }
    assert Trim(After(s, n)) == Format(t) by {
      assert After(s, n) == Format(t);
      FormatSlices(t);
      ShapeIsTrimmed(Format(t));
    }
    assert Parse(Format(t)) == Some(t.(second := 0, nano := 0)) by { ParseFormat(t); }
    assert Before(s, n) == description;
  }

  lemma RenderedWellFormed(description: string, t: LocalDateTime)
    requires '|' !in description && NoLineTerminators(description) && !AllTrimmable(description)
    requires Valid(t)
    ensures WellFormedRecordText(Render(description, t))
  {
    var s := Render(description, t);
    assert s[..|s| - 17] == description && s[|s| - 16..] == Format(t);
    assert Parse(Format(t)).Some? by { ParseFormat(t); }
  }

  /** In a valid record the first bar is the one before the timestamp. */
  lemma ValidRecordBar(s: string)
    requires IsValidRecord(s)
    ensures IndexOf(s, '|') == |s| - 17
  {
    ValidRecordIffWellFormed(s);
    FirstBarAt(s, |s| - 17);
  }

  /** In a valid record the text after the bar is a timestamp that needs no trimming. */
  lemma ValidRecordTimestamp(s: string)
    requires IsValidRecord(s)
    ensures Parse(s[|s| - 16..]).Some? && Trim(s[|s| - 16..]) == s[|s| - 16..]
  {
    ValidRecordIffWellFormed(s);
    ShapeIsTrimmed(s[|s| - 16..]);
  }

  /** The string constructor accepts every valid text, keeping the trimmed description
      and the parsed timestamp. */
  lemma ValidRecordConstructs(c: RecordClass, s: string)
    requires IsValidRecord(s)
    ensures Parse(s[|s| - 16..]).Some?
    ensures FromString(c, s) == Success(Make(c, s, Trim(s[..|s| - 17]), Parse(s[|s| - 16..]).value))
  {
    ValidRecordBar(s);
    ValidRecordTimestamp(s);
    var i := |s| - 17;
    assert Before(s, i) == s[..i] && After(s, i) == s[|s| - 16..];
  }

  /** Rebuilding a valid record from its description and timestamp gives an equal record;
      the rebuilt text is the original exactly when the description carried no padding and
      the timestamp text reads back unchanged (no day was clamped). */
  lemma RebuiltRecordAgrees(c: RecordClass, s: string)
    requires IsValidRecord(s)
    ensures FromString(c, s).Success?
    ensures var a := FromString(c, s).value;
      && Equals(Of(c, a.description, a.timestamp), a)
      && (Of(c, a.description, a.timestamp).value == s <==>
            Trim(s[..|s| - 17]) == s[..|s| - 17] && Format(a.timestamp) == s[|s| - 16..])
  {
    ValidRecordConstructs(c, s);
    var n := |s| - 17;
    var t := Parse(s[n + 1..]).value;
    assert s[n] == '|' by { ValidRecordIffWellFormed(s); }
    RenderIsText(Trim(s[..n]), t, s);
  }

  /** `Render(d, t)` is the text `s` exactly when `s` splits into `d`, a bar and the
      formatted timestamp. */
  lemma RenderIsText(d: string, t: LocalDateTime, s: string)
    requires |s| >= 17 && s[|s| - 17] == '|'
    requires Valid(t)
    ensures Render(d, t) == s <==> d == s[..|s| - 17] && Format(t) == s[|s| - 16..]
  {
    var n := |s| - 17;
    assert |Format(t)| == 16 by { FormatSlices(t); }
    if Render(d, t) == s {
      assert |d| == n;
    }
    if d == s[..n] && Format(t) == s[n + 1..] {
      assert s == s[..n] + "|" + s[n + 1..];
    }
  }

  /** Joining a well-formed description and a timestamp text gives a text the string
      constructor reads back into that description, trimmed, and that timestamp. */
  lemma JoinedRecordConstructs(c: RecordClass, d: string, ts: string)
    requires '|' !in d && NoLineTerminators(d) && !AllTrimmable(d)
    requires |ts| == 16 && Parse(ts).Some?
    ensures FromString(c, d + "|" + ts) == Success(Make(c, d + "|" + ts, Trim(d), Parse(ts).value))
  {
    var s := d + "|" + ts;
    assert s[..|s| - 17] == d && s[|s| - 17] == '|' && s[|s| - 16..] == ts;
    assert WellFormedRecordText(s);
    ValidRecordIffWellFormed(s);
    ValidRecordConstructs(c, s);
  }

  /** Whitespace around the description changes the stored text but not equality. */
  lemma PaddingKeepsEquality(c: RecordClass, w1: string, d: string, w2: string, ts: string)
    requires AllTrimmable(w1) && AllTrimmable(w2)
    requires '|' !in d && NoLineTerminators(w1 + d + w2) && !AllTrimmable(d)
    requires |ts| == 16 && Parse(ts).Some?
    ensures FromString(c, w1 + d + w2 + "|" + ts).Success? && FromString(c, d + "|" + ts).Success?
    ensures Equals(FromString(c, w1 + d + w2 + "|" + ts).value, FromString(c, d + "|" + ts).value)
    ensures |w1| + |w2| > 0 ==> FromString(c, w1 + d + w2 + "|" + ts).value.value != FromString(c, d + "|" + ts).value.value
  {
    var p := w1 + d + w2;
    forall k | 0 <= k < |p|
      ensures p[k] != '|'
    {
      if k < |w1| { assert p[k] == w1[k]; }
      else if k < |w1| + |d| { assert p[k] == d[k - |w1|]; }
      else { assert p[k] == w2[k - |w1| - |d|]; }
    }
    forall k | 0 <= k < |d|
      ensures !IsLineTerminator(d[k])
    {
      assert d[k] == p[|w1| + k];
    }
    assert !AllTrimmable(p) by {
      var i :| 0 <= i < |d| && !IsTrimmable(d[i]);
      assert p[|w1| + i] == d[i];
    }
    TrimIgnoresSurroundingWhitespace(w1, d, w2);
    JoinedRecordConstructs(c, p, ts);
    JoinedRecordConstructs(c, d, ts);
  }

  /** The concrete case: `" a |2024-01-15 14:30"` and `"a|2024-01-15 14:30"`. */
  lemma PaddedDescriptionsEqual(c: RecordClass)
    ensures FromString(c, " " + "a" + " " + "|" + "2024-01-15 14:30").Success?
    ensures FromString(c, "a" + "|" + "2024-01-15 14:30").Success?
    ensures Equals(FromString(c, " " + "a" + " " + "|" + "2024-01-15 14:30").value, FromString(c, "a" + "|" + "2024-01-15 14:30").value)
  {
    assert Parse("2024-01-15 14:30").Some? by { TimestampParses(); }
    assert !IsTrimmable("a"[0]);
    PaddingKeepsEquality(c, " ", "a", " ", "2024-01-15 14:30");
  }

  lemma TimestampParses()
    ensures Parse("2024-01-15 14:30").Some?
  {
    var x := "2024-01-15 14:30";
    assert "2024"[..3] == "202" && "202"[..2] == "20" && "20"[..1] == "2" && "2"[..0] == "";
    assert "01"[..1] == "0" && "15"[..1] == "1" && "14"[..1] == "1" && "30"[..1] == "3";
    assert "0"[..0] == "" && "1"[..0] == "" && "3"[..0] == "";
    assert x[0..4] == "2024";
    assert x[5..7] == "01";
    assert x[8..10] == "15";
    assert x[11..13] == "14";
    assert x[14..16] == "30";
    assert Field(x, 0, 4) == 2024 && Field(x, 5, 7) == 1 && Field(x, 8, 10) == 15;
    assert Field(x, 11, 13) == 14 && Field(x, 14, 16) == 30;
  }

  /** The string constructor builds a record the validator refuses: an empty description. */
  lemma ConstructorAcceptsBlankDescription(c: RecordClass)
    ensures FromString(c, "|2024-01-15 14:30").Success?
    ensures FromString(c, "|2024-01-15 14:30").value.description == ""
    ensures !IsValidRecord("|2024-01-15 14:30")
  {
    var s := "|2024-01-15 14:30";
    FirstBarAt(s, 0);
    assert s[1..] == "2024-01-15 14:30";
    TimestampParses();
    ShapeIsTrimmed(s[1..]);
    assert |s| == 17;
  }

  /** The stored text cannot show nanoseconds, but equality compares the whole timestamp: a
      record built one nanosecond later has the same text and is a different record. */
  lemma NanosecondsDistinguishRecords(c: RecordClass, d: string, t: LocalDateTime)
    requires Valid(t) && t.nano + 1 < 1_000_000_000
    ensures Valid(t.(nano := t.nano + 1))
    ensures Of(c, d, t).value == Of(c, d, t.(nano := t.nano + 1)).value
    ensures !Equals(Of(c, d, t), Of(c, d, t.(nano := t.nano + 1)))
  {
  }

  /** A CcaPoints and a Demerit with the same text and payload are never equal. */
  lemma ClassesNeverEqual(s: string, d: string, t: LocalDateTime)
    ensures !Equals(Make(CcaPointsRecord, s, d, t), Make(DemeritRecord, s, d, t))
  {
  }
}
