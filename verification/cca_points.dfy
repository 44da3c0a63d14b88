/** CcaPoints: a dated record of co-curricular points. */
module CcaPointsAttribute {
  import opened Wrappers
  import opened Exceptions
  import opened JavaText
  import opened DateTime
  import opened PersonAttribute
  import opened DatedRecord

  const MESSAGE_CONSTRAINTS: string :=
    "CcaPoints must be in format: DESCRIPTION|YYYY-MM-DD HH:MM (e.g., Helped organize event|2024-01-15 14:30)"

  predicate IsValidCcaPoints(s: string) {
    IsValidRecord(s)
  }

  /** `new CcaPoints(String)`: every valid text yields a CcaPoints holding its trimmed
      description and its timestamp. */
  function New(s: string): (r: Result<Attribute, Exception>)
    ensures IsValidCcaPoints(s) ==> r.Success? && r.value.CcaPoints? && r.value.value == s
    ensures IsValidCcaPoints(s) ==>
      r.Success? && r.value.description == Trim(s[..|s| - 17]) && Parse(s[|s| - 16..]) == Some(r.value.timestamp)
    ensures '|' !in s ==> r == Failure(ArrayIndexOutOfBounds)
  {
    if IsValidCcaPoints(s) then ValidRecordConstructs(CcaPointsRecord, s); FromString(CcaPointsRecord, s)
    else FromString(CcaPointsRecord, s)
  }

  /** `new CcaPoints(description, timestamp)`. */
  function Of(description: string, timestamp: LocalDateTime): (a: Attribute)
    requires Valid(timestamp)
    ensures a.CcaPoints? && a.description == description && a.timestamp == timestamp
    ensures a.value == Render(description, timestamp)
    ensures WellFormedDescription(description) ==> IsValidCcaPoints(a.value)
  {
    DatedRecord.Of(CcaPointsRecord, description, timestamp)
  }
}
