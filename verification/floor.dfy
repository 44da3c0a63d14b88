/** Floor: an integer from 1 to 19, compared on the parsed number. */
module FloorAttribute {
  import opened Wrappers
  import opened Exceptions
  import opened JavaInt
  import opened PersonAttribute

  const MESSAGE_CONSTRAINTS: string := "Floor must be a number between 1 and 19"
  const MIN_FLOOR: int := 1
  const MAX_FLOOR: int := 19

  predicate IsValidFloor(s: string) {
    ParsesInRange(s, MIN_FLOOR, MAX_FLOOR)
  }

  /** `new Floor(s)`: validates, keeps the raw text as `value` and the parsed number as
      `floorNumber`. */
  function New(s: string): (r: Result<Attribute, Exception>)
    ensures r.Success? <==> IsValidFloor(s)
    ensures r.Failure? ==> r.error == IllegalArgument(MESSAGE_CONSTRAINTS)
    ensures r.Success? ==> && r.value.Floor? && r.value.value == s
                           && MIN_FLOOR <= r.value.floorNumber <= MAX_FLOOR
                           && PayloadMatchesValue(r.value)
  {
    if IsValidFloor(s) then Success(Floor(s, ParseInt(s).value)) else Failure(IllegalArgument(MESSAGE_CONSTRAINTS))
  }

  /** Every floor in range has a valid decimal text that parses back to it. */
  lemma EveryFloorInRangeIsWritable(n: int)
    requires MIN_FLOOR <= n <= MAX_FLOOR
    ensures New(IntToString(n)).Success? && New(IntToString(n)).value.floorNumber == n
  {
    ParseIntToString(n);
  }

  lemma FloorBoundaries()
    ensures IsValidFloor("1") && IsValidFloor("19")
    ensures !IsValidFloor("0") && !IsValidFloor("20")
  {
    assert ParseInt("19") == Some(19) by { assert "19"[..1] == "1"; }
    assert ParseInt("20") == Some(20) by { assert "20"[..1] == "2"; }
  }

  /** `Floor("07")` equals `Floor("7")` although their values differ... */
  lemma LeadingZeroFloorsAreEqual()
    ensures New("07").Success? && New("7").Success?
    ensures Equals(New("07").value, New("7").value)
    ensures New("07").value.value != New("7").value.value
  {
    assert ParseInt("07") == Some(7) by { assert "07"[..1] == "0"; }
  }

  /** ...yet the inherited `hashCode` hashes the raw text, so the two equal floors hash
      differently (1543 and 55), breaking the equals/hashCode contract. */
  lemma EqualFloorsHashDifferently()
    ensures New("07").Success? && New("7").Success?
    ensures Equals(New("07").value, New("7").value)
    ensures HashCode(New("07").value) != HashCode(New("7").value)
  {
    LeadingZeroFloorsAreEqual();
    assert StringHash("7") == 55 by { assert "7"[..0] == ""; }
    assert StringHash("07") == 1543 by { assert "07"[..1] == "0"; assert "0"[..0] == ""; }
  }

  /** With the corrected hash the two equal floors hash alike. */
  lemma EqualFloorsHashAlikeWhenCorrected()
    ensures New("07").Success? && New("7").Success?
    ensures ConsistentHashCode(New("07").value) == ConsistentHashCode(New("7").value)
  {
    LeadingZeroFloorsAreEqual();
    ConsistentHashAgreesWithEquals(New("07").value, New("7").value);
  }
}
