/** Tag: a non-empty alphanumeric word, shown in brackets. */
module TagAttribute {
  import opened Wrappers
  import opened Exceptions
  import opened JavaText
  import opened PersonAttribute

  const MESSAGE_CONSTRAINTS: string := "Tags names should be alphanumeric"

  /** A full match of `\p{Alnum}+`. */
  predicate IsValidTag(s: string) {
    |s| > 0 && forall i :: 0 <= i < |s| ==> IsAsciiAlnum(s[i])
  }

  /** `new Tag(s)`: validates and keeps the text unchanged. */
  function New(s: string): (r: Result<Attribute, Exception>)
    ensures r.Success? <==> IsValidTag(s)
    ensures r.Success? ==> r.value.Tag? && r.value.value == s
    ensures r.Failure? ==> r.error == IllegalArgument(MESSAGE_CONSTRAINTS)
  {
    if IsValidTag(s) then Success(Tag(s)) else Failure(IllegalArgument(MESSAGE_CONSTRAINTS))
  }

  /** A valid tag has no whitespace, so trimming leaves it alone. */
  lemma ValidTagIsTrimmed(s: string)
    requires IsValidTag(s)
    ensures Trim(s) == s
  {
    assert TrimStart(s) == s;
    assert TrimEnd(s) == s;
  }

  /** Tags are equal exactly when their texts are, so equal tags hash alike, and a tag
      prints as its text in brackets. */
  lemma TagEqualityAndDisplay(s: string, t: string)
    requires IsValidTag(s) && IsValidTag(t)
    ensures Equals(New(s).value, New(t).value) <==> s == t
    ensures Equals(New(s).value, New(t).value) ==> HashCode(New(s).value) == HashCode(New(t).value)
    ensures ToString(New(s).value) == "[" + s + "]"
  {
  }
}
