/** Room: three digits and a letter, stored upper-cased. */
module RoomAttribute {
  import opened Wrappers
  import opened Exceptions
  import opened JavaText
  import opened PersonAttribute

  const MESSAGE_CONSTRAINTS: string := "Room must be 3 digits followed by a letter (e.g., 101A, 215B)"

  /** A full match of `\d{3}[A-Za-z]`. */
  predicate IsValidRoom(s: string) {
    |s| == 4 && IsAsciiDigit(s[0]) && IsAsciiDigit(s[1]) && IsAsciiDigit(s[2]) && IsAsciiLetter(s[3])
  }

  /** `new Room(s)`: the stored value is `s.toUpperCase()`, but the check runs on `s` itself. */
  function New(s: string): (r: Result<Attribute, Exception>)
    ensures r.Success? <==> IsValidRoom(s)
    ensures r.Failure? ==> r.error == IllegalArgument(MESSAGE_CONSTRAINTS)
    ensures r.Success? ==> && r.value.Room? && IsValidRoom(r.value.value)
                           && r.value.value == ToUpper(s)
                           && r.value.value[..3] == s[..3] && r.value.value[3] == UpperChar(s[3])
                           && IsAsciiUpper(r.value.value[3])
  {
    if IsValidRoom(s) then Success(Room(ToUpper(s))) else Failure(IllegalArgument(MESSAGE_CONSTRAINTS))
  }

  /** Two rooms are equal exactly when their digits agree and their letters agree up to case. */
  lemma RoomEqualityIgnoresLetterCase(s: string, t: string)
    requires IsValidRoom(s) && IsValidRoom(t)
    ensures Equals(New(s).value, New(t).value) <==> s[..3] == t[..3] && UpperChar(s[3]) == UpperChar(t[3])
  {
    var u, v := New(s).value.value, New(t).value.value;
    if s[..3] == t[..3] && UpperChar(s[3]) == UpperChar(t[3]) {
      assert u == v;
    }
    if u == v {
      assert u[..3] == v[..3] && u[3] == v[3];
    }
  }

  /** A lower-case letter is accepted and `101a` equals `101A`. */
  lemma LowerCaseRoomAccepted()
    ensures IsValidRoom("101a")
    ensures New("101a").value.value == "101A"
    ensures Equals(New("101a").value, New("101A").value)
  {
    RoomEqualityIgnoresLetterCase("101a", "101A");
  }
}
