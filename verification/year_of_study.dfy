/** YearOfStudy: an integer from 1 to 6, compared on the parsed number. */
module YearOfStudyAttribute {
  import opened Wrappers
  import opened Exceptions
  import opened JavaInt
  import opened PersonAttribute

  const MESSAGE_CONSTRAINTS: string := "Year of study must be a number between 1 and 6"
  const MIN_YEAR: int := 1
  const MAX_YEAR: int := 6

  predicate IsValidYear(s: string) {
    ParsesInRange(s, MIN_YEAR, MAX_YEAR)
  }

  /** `new YearOfStudy(s)`: validates, keeps the raw text as `value` and the parsed `year`. */
  function New(s: string): (r: Result<Attribute, Exception>)
    ensures r.Success? <==> IsValidYear(s)
    ensures r.Failure? ==> r.error == IllegalArgument(MESSAGE_CONSTRAINTS)
    ensures r.Success? ==> && r.value.YearOfStudy? && r.value.value == s
                           && MIN_YEAR <= r.value.year <= MAX_YEAR
                           && PayloadMatchesValue(r.value)
  {
    if IsValidYear(s) then Success(YearOfStudy(s, ParseInt(s).value)) else Failure(IllegalArgument(MESSAGE_CONSTRAINTS))
  }

  /** Every year in range has a valid decimal text that parses back to it. */
  lemma EveryYearInRangeIsWritable(n: int)
    requires MIN_YEAR <= n <= MAX_YEAR
    ensures New(IntToString(n)).Success? && New(IntToString(n)).value.year == n
  {
    ParseIntToString(n);
  }

  lemma YearBoundaries()
    ensures IsValidYear("1") && IsValidYear("6")
    ensures !IsValidYear("0") && !IsValidYear("7")
  {
  }

  /** An explicit plus sign is accepted and `"+3"` equals `"3"`, but the inherited
      `hashCode` of the raw text tells them apart. */
  lemma SignedYearEqualButHashesDifferently()
    ensures New("+3").Success? && New("3").Success?
    ensures Equals(New("+3").value, New("3").value)
    ensures New("+3").value.value != New("3").value.value
    ensures HashCode(New("+3").value) != HashCode(New("3").value)
  {
    ParseSigned();
    HashOfSigned();
  }

  lemma ParseSigned()
    ensures ParseInt("+3") == Some(3) && ParseInt("3") == Some(3)
  {
    assert "+3"[1..] == "3" && "3"[..0] == "";
    assert AllDigits("3") && DigitsValue("3") == 3;
  }

  lemma HashOfSigned()
    ensures StringHash("3") == 51 && StringHash("+3") == 1384
  {
    assert "3"[..0] == "";
    assert "+3"[..1] == "+" && "+"[..0] == "";
  }
}
