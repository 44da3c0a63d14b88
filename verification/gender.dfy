/** Gender: MALE, FEMALE or OTHER, read case-insensitively. */
module GenderAttribute {
  import opened Wrappers
  import opened Exceptions
  import opened JavaText
  import opened PersonAttribute

  const MESSAGE_CONSTRAINTS: string := "Gender must be MALE, FEMALE, or OTHER (case-insensitive)"

  /** `GenderType.valueOf(name)`: an exact, case-sensitive match of a constant's name. */
  function ValueOf(name: string): (r: Option<GenderType>)
    ensures r.Some? ==> GenderName(r.value) == name
    ensures forall g :: GenderName(g) == name ==> r == Some(g)
  {
    if name == "MALE" then Some(MALE)
    else if name == "FEMALE" then Some(FEMALE)
    else if name == "OTHER" then Some(OTHER)
    else None
  }

  predicate IsValidGender(s: string) {
    ValueOf(ToUpper(s)).Some?
  }

  /** `new Gender(s)`: the value is `s.toUpperCase()`, so always a constant's name. */
  function New(s: string): (r: Result<Attribute, Exception>)
    ensures r.Success? <==> IsValidGender(s)
    ensures r.Failure? ==> r.error == IllegalArgument(MESSAGE_CONSTRAINTS)
    ensures r.Success? ==> && r.value.Gender? && r.value.value == ToUpper(s)
                           && r.value.value in {"MALE", "FEMALE", "OTHER"}
                           && PayloadMatchesValue(r.value)
  {
    if IsValidGender(s) then
      var u := ToUpper(s);
      Success(Gender(u, ValueOf(u).value))
    else Failure(IllegalArgument(MESSAGE_CONSTRAINTS))
  }

  /** Two valid genders are equal exactly when their upper-cased texts agree. */
  lemma GenderEqualityIsCaseInsensitive(s: string, t: string)
    requires IsValidGender(s) && IsValidGender(t)
    ensures Equals(New(s).value, New(t).value) <==> ToUpper(s) == ToUpper(t)
  {
  }

  lemma SpellingsOfMale()
    ensures New("male").Success? && New("Male").Success? && New("MALE").Success?
    ensures New("male").value.value == "MALE"
    ensures Equals(New("male").value, New("MALE").value) && Equals(New("Male").value, New("MALE").value)
  {
    assert ToUpper("male") == "MALE";
    assert ToUpper("Male") == "MALE";
    assert ToUpper("MALE") == "MALE";
  }

  /** No trimming happens: a leading space makes the text invalid. */
  lemma PaddedGenderRejected()
    ensures !IsValidGender(" male")
  {
    assert ToUpper(" male") == " MALE";
  }
}
