/** Demerit: a dated record of a disciplinary demerit. */
module DemeritAttribute {
  import opened Wrappers
  import opened Exceptions
  import opened JavaText
  import opened DateTime
  import opened PersonAttribute
  import opened DatedRecord

  const MESSAGE_CONSTRAINTS: string :=
    "Demerit must be in format: DESCRIPTION|YYYY-MM-DD HH:MM (e.g., Late night noise|2024-01-15 23:30)"

  predicate IsValidDemerit(s: string) {
    IsValidRecord(s)
  }

  /** `new Demerit(String)`: every valid text yields a Demerit holding its trimmed
      description and its timestamp. */
  function New(s: string): (r: Result<Attribute, Exception>)
    ensures IsValidDemerit(s) ==> r.Success? && r.value.Demerit? && r.value.value == s
    ensures IsValidDemerit(s) ==>
      r.Success? && r.value.description == Trim(s[..|s| - 17]) && Parse(s[|s| - 16..]) == Some(r.value.timestamp)
    ensures '|' !in s ==> r == Failure(ArrayIndexOutOfBounds)
  {
    if IsValidDemerit(s) then ValidRecordConstructs(DemeritRecord, s); FromString(DemeritRecord, s)
    else FromString(DemeritRecord, s)
  }

  /** `new Demerit(description, timestamp)`. */
  function Of(description: string, timestamp: LocalDateTime): (a: Attribute)
    requires Valid(timestamp)
    ensures a.Demerit? && a.description == description && a.timestamp == timestamp
    ensures a.value == Render(description, timestamp)
    ensures WellFormedDescription(description) ==> IsValidDemerit(a.value)
  {
    DatedRecord.Of(DemeritRecord, description, timestamp)
  }
}
