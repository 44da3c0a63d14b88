/** Points: a non-negative integer, compared on the parsed number. */
module PointsAttribute {
  import opened Wrappers
  import opened Exceptions
  import opened JavaInt
  import opened PersonAttribute

  const MESSAGE_CONSTRAINTS: string :=
    "Points can take any positive integer value, and it should not " + "be blank"

  /** `parseInt` succeeds and the number is at least 0: zero is accepted although the
      message says "positive". */
  predicate IsValidPoints(s: string) {
    ParsesInRange(s, 0, INT_MAX)
  }

  /** `new Points(String)`: validates and keeps the raw text as `value`. */
  function New(s: string): (r: Result<Attribute, Exception>)
    ensures r.Success? <==> IsValidPoints(s)
    ensures r.Failure? ==> r.error == IllegalArgument(MESSAGE_CONSTRAINTS)
    ensures r.Success? ==> r.value.Points? && r.value.value == s && r.value.points >= 0
                           && PayloadMatchesValue(r.value)
  {
    if IsValidPoints(s) then Success(Points(s, ParseInt(s).value)) else Failure(IllegalArgument(MESSAGE_CONSTRAINTS))
  }

  /** The private `Points(Integer)` constructor: `value` is the decimal rendering, and no
      check runs, so a negative count yields a Points whose own text is invalid. */
  function FromInteger(n: int): (r: Attribute)
    requires IsInt32(n)
    ensures r.Points? && r.points == n && PayloadMatchesValue(r)
    ensures IsValidPoints(r.value) <==> n >= 0
  {
    ParseIntToString(n);
    Points(IntToString(n), n)
  }

  lemma ZeroPointsAccepted()
    ensures IsValidPoints("0") && !IsValidPoints("-1") && !IsValidPoints("")
  {
    assert "-1"[1..] == "1";
  }

  lemma ParsePadded()
    ensures ParseInt("007") == Some(7) && ParseInt("7") == Some(7)
  {
    assert "007"[..2] == "00" && "00"[..1] == "0" && "0"[..0] == "";
    assert AllDigits("007") && DigitsValue("007") == 7;
    assert AllDigits("7") && DigitsValue("7") == 7;
  }

  lemma HashOfPadded()
    ensures StringHash("7") == 55 && StringHash("007") == 47671
  {
    assert "7"[..0] == "";
    assert "007"[..2] == "00" && "00"[..1] == "0" && "0"[..0] == "";
  }

  /** `"007"` equals `"7"`, yet the inherited `hashCode` of the raw text differs. */
  lemma PaddedPointsEqualButHashDifferently()
    ensures New("007").Success? && New("7").Success?
    ensures Equals(New("007").value, New("7").value)
    ensures HashCode(New("007").value) != HashCode(New("7").value)
  {
    ParsePadded();
    HashOfPadded();
  }
}
