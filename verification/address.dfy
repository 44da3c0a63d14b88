/** Address: free text that must not start with whitespace. */
module AddressAttribute {
  import opened Wrappers
  import opened Exceptions
  import opened JavaText
  import opened PersonAttribute

  const MESSAGE_CONSTRAINTS: string := "Addresses can take any values, and it should not be blank"

  /** A full match of `[^\s].*`: one character that is not regex whitespace, then any
      characters except line terminators. */
  predicate IsValidAddress(s: string) {
    |s| > 0 && !IsRegexSpace(s[0]) && NoLineTerminators(s[1..])
  }

  /** `new Address(s)`: validates, then keeps the text unchanged. */
  function New(s: string): (r: Result<Attribute, Exception>)
    ensures r.Success? <==> IsValidAddress(s)
    ensures r.Success? ==> r.value.Address? && r.value.value == s
    ensures r.Failure? ==> r.error == IllegalArgument(MESSAGE_CONSTRAINTS)
  {
    if IsValidAddress(s) then Success(Address(s)) else Failure(IllegalArgument(MESSAGE_CONSTRAINTS))
  }

  /** Trailing blanks and tabs are accepted: only the first character is checked for whitespace. */
  lemma TrailingWhitespaceAllowed(s: string, w: string)
    requires IsValidAddress(s)
    requires forall i :: 0 <= i < |w| ==> w[i] == ' ' || w[i] == '\t'
    ensures IsValidAddress(s + w)
  {
    assert (s + w)[1..] == s[1..] + w;
  }

  /** Leading whitespace, an empty string and an embedded line break are all rejected. */
  lemma AddressRejections(s: string, t: string)
    requires |s| > 0 && IsRegexSpace(s[0])
    ensures !IsValidAddress(s)
    ensures !IsValidAddress("")
    ensures !IsValidAddress("a" + "\n" + t)
  {
    assert ("a" + "\n" + t)[1..][0] == '\n';
  }

  /** Equality is case-sensitive string equality on the text. */
  lemma AddressEqualityIsTextEquality(s: string, t: string)
    requires IsValidAddress(s) && IsValidAddress(t)
    ensures Equals(New(s).value, New(t).value) <==> s == t
  {
  }
}
