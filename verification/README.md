# Attribute model of a student-residence address book

This project models the core of the address book for student residences: its attribute
model. Three parts are modelled, together with the two gates that let data in and out:

- The closed catalogue of eleven attribute kinds, `AttributeType`. It gives each kind a
  prefix, a display name, a required flag, a multi-value flag, a factory, a validator and
  a constraint message.
- The validated value classes behind the kinds: Address, Room, Floor, YearOfStudy, Gender,
  Tag, CcaPoints, Demerit, Points and their base `PersonAttribute`. They are modelled as
  one tagged union, and each variant has its own equality and hash.
- The immutable `Person`, which holds two maps keyed by kind. One map holds single values,
  the other holds lists.

The two gates are:

- `ParserUtil`, which trims the user's text, validates it and builds attributes.
- `JsonAdaptedPerson`, which is the JSON form a Person is saved in and loaded from.

Java exceptions are `Failure` values of a `Result`. The `Exceptions` module lists the
ones the core can throw. Java `int` arithmetic is written out where it matters:
`Integer.parseInt` keeps the 32-bit range, and `String.hashCode` wraps modulo 2^32.

Some collaborators are outside the modelled sources:

- the `Name`, `Phone` and `Email` classes;
- `JsonAdaptedTag`;
- `StringUtil.isNonZeroUnsignedInteger`.

They are fields of the `External.Rules` record. Every property is therefore proved for
every choice of their rules. Where a property needs them to keep a promise, `Coherent`
or `TagsRoundTrip` states that promise as a precondition. `Index` is not part of this
model either: `ParserUtil.FromOneBased` takes `Index.fromOneBased` to refuse numbers
below one, as its name says.

Module layout, one module per source unit:

| module | models |
|---|---|
| `Wrappers`, `Exceptions` | `Result`/`Option`, thrown exceptions, `MapAll` (a loop that stops at the first exception) |
| `JavaText`, `JavaInt`, `DateTime` | `String.trim`/`toUpperCase`/`indexOf`, `Integer.parseInt`/`toString`, `LocalDateTime` with the pattern `yyyy-MM-dd HH:mm` |
| `PersonAttribute` | the base class and the tagged union of all attribute classes, `equals`, `hashCode`, `toString` |
| `AddressAttribute` … `PointsAttribute`, `DatedRecord` | one module per attribute class; CcaPoints and Demerit share `DatedRecord` |
| `External` | the collaborators whose sources are not modelled |
| `AttributeTypes` | the catalogue |
| `Persons` | the Person aggregate |
| `ParserUtil`, `JsonAdaptedPerson` | the two gates |

Source paths below are relative to the repository root.

## Model

| member | source | states |
|---|---|---|
| AddressAttribute.New | src/main/java/seedu/address/model/person/attributes/impl/Address.java:27-38 | succeeds exactly when the text fully matches `[^\s].*`, that is non-empty, starting with a non-whitespace character, no line terminator; keeps the text unchanged; otherwise IllegalArgument with the class message |
| AddressAttribute.TrailingWhitespaceAllowed | src/main/java/seedu/address/model/person/attributes/impl/Address.java:20 | blanks and tabs appended to a valid address keep it valid |
| AddressAttribute.AddressRejections | src/main/java/seedu/address/model/person/attributes/impl/Address.java:20 | a leading whitespace character, the empty text and an embedded line break are each rejected |
| AddressAttribute.AddressEqualityIsTextEquality | src/main/java/seedu/address/model/person/attributes/impl/Address.java:40-53 | two addresses are equal exactly when their texts are identical, case included |
| TagAttribute.New | src/main/java/seedu/address/model/person/attributes/impl/Tag.java:15-33 | succeeds exactly when the text is one or more ASCII letters or digits; keeps the text; otherwise IllegalArgument with the class message |
| TagAttribute.ValidTagIsTrimmed | src/main/java/seedu/address/model/person/attributes/impl/Tag.java:15 | trimming leaves a valid tag unchanged |
| TagAttribute.TagEqualityAndDisplay | src/main/java/seedu/address/model/person/attributes/impl/Tag.java:35-51 | tags are equal exactly when their texts are; equal tags hash alike; a tag prints as `[text]` |
| RoomAttribute.New | src/main/java/seedu/address/model/person/attributes/impl/Room.java:14-31 | succeeds exactly when the input is three digits and a letter; the stored value is the upper-cased input, so it keeps the digits and upper-cases the letter; otherwise IllegalArgument with the class message |
| RoomAttribute.RoomEqualityIgnoresLetterCase | src/main/java/seedu/address/model/person/attributes/impl/Room.java:21-44 | two rooms are equal exactly when their digits agree and their letters agree up to case |
| RoomAttribute.LowerCaseRoomAccepted | src/main/java/seedu/address/model/person/attributes/impl/Room.java:21-44 | `101a` is valid, is stored as `101A`, and equals `Room("101A")` |
| FloorAttribute.New | src/main/java/seedu/address/model/person/attributes/impl/Floor.java:13-40 | succeeds exactly when `parseInt` succeeds with a value from 1 to 19; keeps the raw text and the parsed number, which agree; otherwise IllegalArgument with the class message |
| FloorAttribute.EveryFloorInRangeIsWritable | src/main/java/seedu/address/model/person/attributes/impl/Floor.java:24-40 | every number from 1 to 19, written in decimal, builds a floor holding that number |
| FloorAttribute.FloorBoundaries | src/main/java/seedu/address/model/person/attributes/impl/Floor.java:14-40 | `1` and `19` are valid; `0` and `20` are not |
| FloorAttribute.LeadingZeroFloorsAreEqual | src/main/java/seedu/address/model/person/attributes/impl/Floor.java:46-57 | `Floor("07")` equals `Floor("7")` although their values differ |
| FloorAttribute.EqualFloorsHashDifferently | src/main/java/seedu/address/model/person/attributes/PersonAttribute.java:29-32 | the two equal floors `07` and `7` have different hash codes |
| FloorAttribute.EqualFloorsHashAlikeWhenCorrected | src/main/java/seedu/address/model/person/attributes/impl/Floor.java:46-57 | under the corrected hash the same two floors hash alike |
| YearOfStudyAttribute.New | src/main/java/seedu/address/model/person/attributes/impl/YearOfStudy.java:13-40 | succeeds exactly when `parseInt` succeeds with a value from 1 to 6; keeps the raw text and the parsed year; otherwise IllegalArgument with the class message |
| YearOfStudyAttribute.EveryYearInRangeIsWritable | src/main/java/seedu/address/model/person/attributes/impl/YearOfStudy.java:24-40 | every number from 1 to 6, written in decimal, builds a year of study holding that number |
| YearOfStudyAttribute.YearBoundaries | src/main/java/seedu/address/model/person/attributes/impl/YearOfStudy.java:14-40 | `1` and `6` are valid; `0` and `7` are not |
| YearOfStudyAttribute.SignedYearEqualButHashesDifferently | src/main/java/seedu/address/model/person/attributes/impl/YearOfStudy.java:46-57 | `+3` is accepted and equals `3`, with a different value and a different hash code |
| PointsAttribute.New | src/main/java/seedu/address/model/person/attributes/Points.java:10-39 | succeeds exactly when `parseInt` succeeds with a value of at least 0; keeps the raw text and the parsed count; otherwise IllegalArgument with the class message |
| PointsAttribute.FromInteger | src/main/java/seedu/address/model/person/attributes/Points.java:15-18 | the private constructor keeps the number, and its text is valid exactly when the number is not negative |
| PointsAttribute.ZeroPointsAccepted | src/main/java/seedu/address/model/person/attributes/Points.java:32-39 | `0` is valid despite the "positive" message; `-1` and the empty text are not |
| PointsAttribute.PaddedPointsEqualButHashDifferently | src/main/java/seedu/address/model/person/attributes/Points.java:41-52 | `007` equals `7`, but their hash codes differ |
| GenderAttribute.ValueOf | src/main/java/seedu/address/model/person/attributes/impl/Gender.java:18-20 | `valueOf` finds a constant exactly when the text is that constant's name, case included |
| GenderAttribute.New | src/main/java/seedu/address/model/person/attributes/impl/Gender.java:29-45 | succeeds exactly when the upper-cased text names a constant; the value is the upper-cased text, one of `MALE`, `FEMALE`, `OTHER`; otherwise IllegalArgument with the class message |
| GenderAttribute.GenderEqualityIsCaseInsensitive | src/main/java/seedu/address/model/person/attributes/impl/Gender.java:51-62 | two genders are equal exactly when their upper-cased texts agree |
| GenderAttribute.SpellingsOfMale | src/main/java/seedu/address/model/person/attributes/impl/Gender.java:29-62 | `male`, `Male` and `MALE` build equal genders with value `MALE` |
| GenderAttribute.PaddedGenderRejected | src/main/java/seedu/address/model/person/attributes/impl/Gender.java:38-45 | nothing is trimmed: ` male` is invalid |
| CcaPointsAttribute.New | src/main/java/seedu/address/model/person/attributes/impl/CcaPoints.java:31-37 | a valid text builds a CcaPoints storing that text, whose description is the trimmed text before the bar and whose timestamp is the parse of the last sixteen characters; a text without a bar fails on `parts[1]` |
| CcaPointsAttribute.Of | src/main/java/seedu/address/model/person/attributes/impl/CcaPoints.java:45-51 | for a timestamp with a year from 1 to 9999, the two-argument constructor keeps the description untrimmed, keeps the timestamp, and stores `description|formatted timestamp`; with a well-formed description that text passes the validator |
| DemeritAttribute.New | src/main/java/seedu/address/model/person/attributes/impl/Demerit.java:31-37 | a valid text builds a Demerit storing that text, whose description is the trimmed text before the bar and whose timestamp is the parse of the last sixteen characters; a text without a bar fails on `parts[1]` |
| DemeritAttribute.Of | src/main/java/seedu/address/model/person/attributes/impl/Demerit.java:45-51 | for a timestamp with a year from 1 to 9999, the two-argument constructor keeps the description untrimmed, keeps the timestamp, and stores `description|formatted timestamp`; with a well-formed description that text passes the validator |
| DatedRecord.FromString | src/main/java/seedu/address/model/person/attributes/impl/CcaPoints.java:31-37 | the string constructor cuts at the first bar; with no bar it throws ArrayIndexOutOfBounds; when the trimmed tail is not a timestamp it throws DateTimeParse; otherwise it keeps the trimmed head and the parsed timestamp |
| DatedRecord.Render | src/main/java/seedu/address/model/person/attributes/impl/CcaPoints.java:46 | for a timestamp with a year from 1 to 9999, the stored text is the description, a bar at its end, then the formatted timestamp |
| DatedRecord.Of | src/main/java/seedu/address/model/person/attributes/impl/CcaPoints.java:45-51 | the two-argument constructor keeps both arguments; with a non-blank, bar-free, single-line description its text is valid and the string constructor reads it back as the trimmed description and the timestamp without its seconds and nanoseconds |
| DatedRecord.ValidRecordIffWellFormed | src/main/java/seedu/address/model/person/attributes/impl/CcaPoints.java:56-67 | the validator holds exactly when the text is a non-blank, bar-free, single-line description, one bar, and a 16-character timestamp that parses |
| DatedRecord.EarlyBarInvalidates | src/main/java/seedu/address/model/person/attributes/impl/CcaPoints.java:56-63 | when the regex matches but the first bar is not the one before the timestamp, the text is invalid |
| DatedRecord.BarOrBlankDescriptionRejected | src/main/java/seedu/address/model/person/attributes/impl/CcaPoints.java:56-67 | a description containing a bar, or made only of whitespace, makes the text invalid |
| DatedRecord.ValidRecordConstructs | src/main/java/seedu/address/model/person/attributes/impl/CcaPoints.java:31-37 | the string constructor accepts every valid text, keeping the trimmed description and the parsed timestamp |
| DatedRecord.RenderedRecordIsValid | src/main/java/seedu/address/model/person/attributes/impl/CcaPoints.java:31-51 | a well-formed description with any valid timestamp renders to a valid text, which reads back as the trimmed description and the timestamp without its seconds and nanoseconds |
| DatedRecord.RebuiltRecordAgrees | src/main/java/seedu/address/model/person/attributes/impl/CcaPoints.java:31-89 | rebuilding a parsed record from its description and timestamp gives an equal record; the rebuilt text is the original exactly when the description had no padding and no day was clamped |
| DatedRecord.JoinedRecordConstructs | src/main/java/seedu/address/model/person/attributes/impl/CcaPoints.java:31-37 | a well-formed description, a bar and a parsable timestamp text are read back as the trimmed description and that timestamp |
| DatedRecord.PaddingKeepsEquality | src/main/java/seedu/address/model/person/attributes/impl/CcaPoints.java:77-89 | whitespace around the description changes the stored text but not equality |
| DatedRecord.PaddedDescriptionsEqual | src/main/java/seedu/address/model/person/attributes/impl/CcaPoints.java:77-89 | ` a |2024-01-15 14:30` equals `a|2024-01-15 14:30` |
| DatedRecord.ConstructorAcceptsBlankDescription | src/main/java/seedu/address/model/person/attributes/impl/CcaPoints.java:31-67 | the string constructor builds an empty description from `|2024-01-15 14:30`, which the validator refuses |
| DatedRecord.NanosecondsDistinguishRecords | src/main/java/seedu/address/model/person/attributes/impl/CcaPoints.java:45-89 | two records with the same description and timestamps one nanosecond apart have the same text but are not equal, since equality compares the full timestamp |
| DatedRecord.ClassesNeverEqual | src/main/java/seedu/address/model/person/attributes/impl/CcaPoints.java:83-85 | a CcaPoints never equals a Demerit, even with the same text and payload |
| DateTime.Parse | src/main/java/seedu/address/model/person/attributes/impl/CcaPoints.java:36 | parsing succeeds exactly when the text has the pattern's shape and its fields are in range; the year, month, hour and minute are the fields, the seconds and nanoseconds are zero, and the day is clamped to the month's length |
| DateTime.FormatFields | src/main/java/seedu/address/model/person/attributes/impl/CcaPoints.java:22-46 | formatting writes a timestamp whose year has four digits in the pattern's shape, with the year, month, day, hour and minute where the parser reads them |
| DateTime.ParseFormat | src/main/java/seedu/address/model/person/attributes/impl/CcaPoints.java:36-46 | parsing a formatted valid timestamp gives it back with its seconds and nanoseconds set to zero |
| DateTime.FormatParse | src/main/java/seedu/address/model/person/attributes/impl/CcaPoints.java:36-46 | formatting a parsed timestamp gives the text back exactly when the day was not clamped |
| DateTime.SmartResolverClampsDay | src/main/java/seedu/address/model/person/attributes/impl/CcaPoints.java:36 | `2023-02-30 10:00` is read as 28 February |
| DateTime.SmartResolverRejectsDay32 | src/main/java/seedu/address/model/person/attributes/impl/CcaPoints.java:36 | a day of 32 is rejected |
| DateTime.FormatDropsSeconds | src/main/java/seedu/address/model/person/attributes/impl/CcaPoints.java:46 | a timestamp with seconds or nanoseconds does not survive formatting and parsing |
| JavaInt.ParseIntToString | src/main/java/seedu/address/model/person/attributes/Points.java:15-23 | `parseInt` reads back every `int` that `toString` writes |
| JavaText.TrimIgnoresSurroundingWhitespace | src/main/java/seedu/address/logic/parser/ParserUtil.java:50 | trimming removes whitespace added on either side |
| JavaText.TrimEmptyIffBlank | src/main/java/seedu/address/model/person/attributes/impl/CcaPoints.java:63 | the trimmed text is empty exactly when every character is trimmable |
| PersonAttribute.ToString | src/main/java/seedu/address/model/person/attributes/PersonAttribute.java:24-27 | `toString` is the value, except that a Tag is the value between a `[` and a `]` |
| PersonAttribute.ToStringDeterminesText | src/main/java/seedu/address/model/person/attributes/impl/Tag.java:48-51 | two attributes of the same class that print alike hold the same text |
| PersonAttribute.HashCode | src/main/java/seedu/address/model/person/attributes/PersonAttribute.java:29-32 | the hash is a Java `int` |
| PersonAttribute.EqualsReflexiveSymmetric | src/main/java/seedu/address/model/person/attributes/PersonAttribute.java:34-35 | every class's `equals` is reflexive and symmetric |
| PersonAttribute.EqualsTransitive | src/main/java/seedu/address/model/person/attributes/PersonAttribute.java:34-35 | every class's `equals` is transitive |
| PersonAttribute.EqualsRespectsClass | src/main/java/seedu/address/model/person/attributes/impl/CcaPoints.java:83-85 | equal attributes have the same runtime class |
| PersonAttribute.HashAgreesWithEqualsExceptIntegers | src/main/java/seedu/address/model/person/attributes/PersonAttribute.java:29-35 | outside Floor, YearOfStudy and Points, equal attributes hash alike, and outside the record classes they have equal values |
| PersonAttribute.ConsistentHashCode | src/main/java/seedu/address/model/person/attributes/PersonAttribute.java:29-32 | the corrected hash is a Java `int` |
| PersonAttribute.ConsistentHashAgreesWithEquals | src/main/java/seedu/address/model/person/attributes/PersonAttribute.java:29-32 | under the corrected hash, equal attributes always hash alike |
| Wrappers.MapAll | src/main/java/seedu/address/logic/parser/ParserUtil.java:68-72 | succeeds exactly when every element converts, giving the converted elements in order; otherwise it gives the error of the first element that fails |
| AttributeTypes.Filter | src/main/java/seedu/address/model/person/attributes/AttributeType.java:184-188 | the filtered list holds exactly the kept kinds of the list, and keeps an ascending list ascending |
| AttributeTypes.AllKindsListed | src/main/java/seedu/address/model/person/attributes/AttributeType.java:30-56 | `values()` has eleven entries, each kind at its ordinal, and lists every kind |
| AttributeTypes.FilterOfCatalogue | src/main/java/seedu/address/model/person/attributes/AttributeType.java:184-221 | filtering the catalogue yields the one ascending list of the kept kinds |
| AttributeTypes.RequiredTypes | src/main/java/seedu/address/model/person/attributes/AttributeType.java:184-188 | the required kinds are NAME, PHONE, EMAIL, in that order |
| AttributeTypes.OptionalTypes | src/main/java/seedu/address/model/person/attributes/AttributeType.java:195-199 | the optional kinds are the other eight, YEAR_OF_STUDY and ADDRESS among them, in declaration order |
| AttributeTypes.SingleValueTypes | src/main/java/seedu/address/model/person/attributes/AttributeType.java:206-210 | the single-value kinds are the first eight, in declaration order |
| AttributeTypes.MultiValueTypes | src/main/java/seedu/address/model/person/attributes/AttributeType.java:217-221 | the multi-value kinds are CCA_POINT_RECORDS, DEMERIT_REORDS, TAG |
| AttributeTypes.ListsPartitionCatalogue | src/main/java/seedu/address/model/person/attributes/AttributeType.java:184-199 | a kind is in the required list exactly when it is required and in the optional list exactly when it is not; the lengths add up to eleven; both lists are ascending |
| AttributeTypes.ValueListsPartitionCatalogue | src/main/java/seedu/address/model/person/attributes/AttributeType.java:206-221 | the same holds for the single-value and multi-value lists |
| AttributeTypes.SinglesPrecedeMultis | src/main/java/seedu/address/model/person/attributes/AttributeType.java:30-56 | every single-value kind is declared before every multi-value kind |
| AttributeTypes.CatalogueSplits | src/main/java/seedu/address/model/person/attributes/AttributeType.java:206-221 | `values()` is the single-value list followed by the multi-value list |
| AttributeTypes.AllPrefixes | src/main/java/seedu/address/model/person/attributes/AttributeType.java:228-232 | the prefix list has eleven entries, holds every kind's prefix, and no two entries are equal |
| AttributeTypes.AllPrefixesDistinct | src/main/java/seedu/address/model/person/attributes/AttributeType.java:228-232 | the prefix list has eleven entries, no two equal |
| AttributeTypes.PrefixesDistinct | src/main/java/seedu/address/model/person/attributes/AttributeType.java:30-56 | two kinds share a prefix exactly when they are the same kind |
| AttributeTypes.FindPrefix | src/main/java/seedu/address/model/person/attributes/AttributeType.java:174-176 | a kind found has exactly that prefix, and no kind of the list has it when none is found |
| AttributeTypes.FromPrefix | src/main/java/seedu/address/model/person/attributes/AttributeType.java:173-177 | a kind found has exactly that prefix; nothing is found exactly when no kind has it |
| AttributeTypes.FromPrefixOfPrefix | src/main/java/seedu/address/model/person/attributes/AttributeType.java:173-177 | looking up a kind's own prefix finds that kind |
| AttributeTypes.FromPrefixIsExact | src/main/java/seedu/address/model/person/attributes/AttributeType.java:173-177 | matching is exact and case-sensitive: `N/`, `n` and the empty text find nothing |
| AttributeTypes.PrefixShape | src/main/java/seedu/address/model/person/attributes/AttributeType.java:30-56 | every prefix has at least two characters, starts with a lower-case letter and ends with a slash |
| AttributeTypes.CreateAcceptsValid | src/main/java/seedu/address/model/person/attributes/AttributeType.java:151-163 | for every kind, a value the validator accepts is built by the factory, as an instance of the kind's class |
| AttributeTypes.CreateMatchesValidator | src/main/java/seedu/address/model/person/attributes/AttributeType.java:151-163 | outside the record kinds the factory succeeds exactly when the validator accepts, and otherwise fails with the kind's message |
| AttributeTypes.RecordFactoryIsLax | src/main/java/seedu/address/model/person/attributes/AttributeType.java:51-54 | the record factories build `|2024-01-15 14:30`, which their validators refuse |
| Persons.FirstClash | src/main/java/seedu/address/model/person/Person.java:78-84 | finds the first entry that the growing HashSet refuses, and no entry before it is refused |
| Persons.FirstClashFindsDuplicate | src/main/java/seedu/address/model/person/Person.java:78-84 | some entry is refused exactly when the list holds a pair that the HashSet cannot both keep |
| Persons.CheckNoDuplicates | src/main/java/seedu/address/model/person/Person.java:77-85 | succeeds exactly when no such pair exists; otherwise it fails with `Duplicate <kind> found: <value>` for the first refused entry |
| Persons.FirstRefused | src/main/java/seedu/address/model/person/Person.java:78-84 | the loop over the growing HashSet stops at the first entry `add` refuses, which is the first clash; it runs to the end exactly when no pair clashes |
| Persons.ValidateNoDuplicates | src/main/java/seedu/address/model/person/Person.java:77-85 | `validateNoDuplicates` succeeds exactly when no such pair exists, and fails with `Duplicate <kind> found: <value>` for the first refused entry |
| Persons.CheckMultis | src/main/java/seedu/address/model/person/Person.java:61-69 | the lists are checked kind by kind; the loop succeeds exactly when no visited list has a duplicate, and otherwise fails with the error of the first visited list that has one |
| Persons.New | src/main/java/seedu/address/model/person/Person.java:46-70 | the constructor succeeds exactly when no list holds a duplicate, keeps both maps as given, and otherwise fails with the error of the duplicated list that comes first in declaration order |
| Persons.NoRequiredFieldCheck | src/main/java/seedu/address/model/person/Person.java:50-57 | a Person with no attributes, or with a Tag stored as its NAME, is built |
| Persons.DuplicateTagsRejected | src/main/java/seedu/address/model/person/Person.java:77-85 | a TAG list holding the same tag twice fails with `Duplicate Tag found: <tag>` |
| Persons.OneListChecked | src/main/java/seedu/address/model/person/Person.java:61-69 | with one list, the constructor fails exactly as that list's check does |
| Persons.EqualFloorsPassDuplicateCheck | src/main/java/seedu/address/model/person/Person.java:78-80 | the equal floors `07` and `7` both enter the HashSet, so the list is accepted |
| Persons.CorrectedClashIsEquals | src/main/java/seedu/address/model/person/Person.java:78-80 | under the corrected hash the HashSet refuses an entry exactly when `equals` matches it |
| Persons.AccessorsReadConstructedMaps | src/main/java/seedu/address/model/person/Person.java:92-135 | on a constructed Person, a kind has a single value exactly when the given singles map holds it, and then that value; the value is found under exactly its own class; a kind reads as its given list or the empty list; `hasAttribute` holds exactly for a single value or a non-empty list |
| Persons.OfClass | src/main/java/seedu/address/model/person/Person.java:141-146 | keeps exactly the entries of the class, and the whole list when all are |
| Persons.GetMultiAs | src/main/java/seedu/address/model/person/Person.java:141-146 | holds exactly the entries of the kind's list that are instances of the class |
| Persons.GetMultiAsKeepsOrder | src/main/java/seedu/address/model/person/Person.java:141-146 | each entry of the class is kept as often as the list holds it, entries of other classes never; the kept entries follow the list's order around every position |
| Persons.OfClassAppend | src/main/java/seedu/address/model/person/Person.java:141-146 | filtering a joined list is joining the filtered parts |
| Persons.OfClassCounts | src/main/java/seedu/address/model/person/Person.java:141-146 | the filter keeps every entry of the class with its multiplicity and drops every other entry |
| Persons.HasAttribute | src/main/java/seedu/address/model/person/Person.java:151-154 | holds exactly when the kind has a single value or a non-empty list |
| Persons.Set | src/main/java/seedu/address/model/person/Person.java:114-118 | the new Person has the given value under the kind, the same single values elsewhere, the same lists, and stays free of duplicates |
| Persons.SetIdempotent | src/main/java/seedu/address/model/person/Person.java:114-118 | setting the same value twice equals setting it once |
| Persons.SetMulti | src/main/java/seedu/address/model/person/Person.java:124-128 | succeeds exactly when the new list has no duplicate, and otherwise fails with its check's error; on success the kind reads as the new list, and the single values and other lists are unchanged |
| Persons.SamePersonIffNamesMatch | src/main/java/seedu/address/model/person/Person.java:184-193 | `isSamePerson` holds exactly when both lack a NAME, or both have equal ones |
| Persons.SamePersonReflexiveSymmetric | src/main/java/seedu/address/model/person/Person.java:184-193 | `isSamePerson` is reflexive and symmetric |
| Persons.EqualPersonsAreSamePerson | src/main/java/seedu/address/model/person/Person.java:184-209 | equal persons are the same person |
| Persons.PersonEqualsReflexiveSymmetric | src/main/java/seedu/address/model/person/Person.java:198-209 | Person equality is reflexive and symmetric |
| Persons.PersonEqualsTransitive | src/main/java/seedu/address/model/person/Person.java:198-209 | Person equality is transitive |
| Persons.EmptyTagListIsNotMissing | src/main/java/seedu/address/model/person/Person.java:207-208 | an empty TAG list and a missing TAG key agree under every accessor, yet the persons are unequal |
| Persons.ListOrderMatters | src/main/java/seedu/address/model/person/Person.java:207-208 | swapping two unequal entries of a list gives an unequal person |
| Persons.DisplayLine | src/main/java/seedu/address/model/person/Person.java:260-273 | empty for a kind not shown; a single value shows as `<display name>: <value>` and a non-empty list as `<display name>: ` followed by its values joined by `, `, each ending in a newline |
| Persons.ShownKinds | src/main/java/seedu/address/model/person/Person.java:256-277 | exactly the kinds shown, in declaration order |
| Persons.LinesAppend | src/main/java/seedu/address/model/person/Person.java:259-274 | the lines of two kind lists in turn are the lines of the joined list |
| Persons.LinesSkipHidden | src/main/java/seedu/address/model/person/Person.java:259-274 | leaving out the kinds not shown does not change the lines |
| Persons.DisplayFollowsCatalogue | src/main/java/seedu/address/model/person/Person.java:256-277 | the display is the trimmed lines of the shown kinds in declaration order: singles, then non-empty lists |
| Persons.LinesBlankIffNothingShown | src/main/java/seedu/address/model/person/Person.java:256-277 | the lines are all whitespace exactly when none of the kinds is shown |
| Persons.DisplayEmptyIffNothingShown | src/main/java/seedu/address/model/person/Person.java:256-277 | the display is empty exactly when no kind is shown |
| ParserUtil.FromOneBased | src/main/java/seedu/address/logic/parser/ParserUtil.java:35 | succeeds exactly for a number of at least one, whose one-based position it keeps |
| ParserUtil.ParseIndex | src/main/java/seedu/address/logic/parser/ParserUtil.java:30-36 | a trimmed text that fails the check gives ParseException with MESSAGE_INVALID_INDEX; an accepted index is the parsed trimmed number |
| ParserUtil.ParseIndexUnderCoherentRules | src/main/java/seedu/address/logic/parser/ParserUtil.java:30-36 | with a check that keeps its promise, parsing succeeds exactly when the check accepts, fails only with the index message, and yields the number less one |
| ParserUtil.ParseAttribute | src/main/java/seedu/address/logic/parser/ParserUtil.java:47-55 | succeeds exactly when the kind accepts the trimmed text, and then the result is the kind's factory applied to the trimmed text, an instance of the kind's class; otherwise ParseException with the kind's message |
| ParserUtil.ParseAttributeIgnoresPadding | src/main/java/seedu/address/logic/parser/ParserUtil.java:50-54 | whitespace around the text never changes the result |
| ParserUtil.ParseAttributeOfTrimmed | src/main/java/seedu/address/logic/parser/ParserUtil.java:50-54 | on a trimmed valid text the result is the kind's factory applied to it |
| ParserUtil.ParseAttributes | src/main/java/seedu/address/logic/parser/ParserUtil.java:65-73 | succeeds exactly when every trimmed value is valid, giving a list of the same length whose entry i is the parse of value i; otherwise it fails at the first invalid value with the kind's message |
| ParserUtil.ParsedListHasKindClass | src/main/java/seedu/address/logic/parser/ParserUtil.java:65-73 | every entry of a parsed list is an instance of the kind's class |
| ParserUtil.ParseTag | src/main/java/seedu/address/logic/parser/ParserUtil.java:81-88 | succeeds exactly when the trimmed text is a valid tag, giving that tag; otherwise ParseException with the Tag message |
| ParserUtil.ParseTagIsParseAttributeAtTag | src/main/java/seedu/address/logic/parser/ParserUtil.java:81-88 | the tag parser agrees with the generic parser at TAG |
| ParserUtil.ParseTags | src/main/java/seedu/address/logic/parser/ParserUtil.java:93-100 | succeeds exactly when every trimmed text is a valid tag; the set holds exactly the tags of the trimmed texts |
| ParserUtil.RepeatedTagCollapses | src/main/java/seedu/address/logic/parser/ParserUtil.java:93-100 | a tag given twice, once padded, is one element of the set |
| ParserUtil.RepeatedTagKeptTwice | src/main/java/seedu/address/logic/parser/ParserUtil.java:65-73 | the generic parser keeps both copies of such a tag |
| JsonAdaptedPerson.TextOf | src/main/java/seedu/address/storage/JsonAdaptedPerson.java:58-61 | the property holds the attribute's text when the kind's entry exists with the expected class, and is null otherwise |
| JsonAdaptedPerson.FromPerson | src/main/java/seedu/address/storage/JsonAdaptedPerson.java:57-64 | the four properties store NAME, PHONE, EMAIL and ADDRESS as above; the tags are the person's Tag entries, converted in order |
| JsonAdaptedPerson.NewField | src/main/java/seedu/address/storage/JsonAdaptedPerson.java:103-136 | a valid text builds an attribute of the field's class holding that text |
| JsonAdaptedPerson.FieldRulesAreCatalogueRules | src/main/java/seedu/address/storage/JsonAdaptedPerson.java:96-138 | the validator, message and constructor each field uses are the kind's catalogue entries |
| JsonAdaptedPerson.ValidateAndGet | src/main/java/seedu/address/storage/JsonAdaptedPerson.java:96-138 | a null property fails with `Person's <Class> field is missing!`; a present one succeeds exactly when valid, untrimmed, and otherwise fails with the class's message |
| JsonAdaptedPerson.ValidateFields | src/main/java/seedu/address/storage/JsonAdaptedPerson.java:79-88 | succeeds exactly when all four properties are present and valid, giving the map of exactly those four attributes; a failure is the error of the first invalid field in the order name, phone, email, address, and always IllegalValue |
| JsonAdaptedPerson.FirstInvalidFieldReported | src/main/java/seedu/address/storage/JsonAdaptedPerson.java:79-138 | with loaded tags, when the fields before one are valid and that one is missing or invalid, the conversion fails with that field's error |
| JsonAdaptedPerson.ToModelType | src/main/java/seedu/address/storage/JsonAdaptedPerson.java:71-94 | the first failing tag's IllegalValueException comes out wrapped in a RuntimeException and any other exception of the tag converter comes out unchanged; on success the four properties were valid, the singles are exactly the four kinds, the lists are exactly TAG, and the TAG list is the loaded tags in their stored order; the Person has no duplicates |
| JsonAdaptedPerson.Assemble | src/main/java/seedu/address/storage/JsonAdaptedPerson.java:79-93 | after the tags: succeeds exactly when the fields are valid and the tags distinct, giving that Person; otherwise a bad field's IllegalValueException, or with valid fields the constructor's IllegalArgumentException for the first duplicated tag; never the RuntimeException wrapper |
| JsonAdaptedPerson.ToModelTypeChecked | src/main/java/seedu/address/storage/JsonAdaptedPerson.java:71-94 | the corrected conversion fails whenever a tag fails |
| JsonAdaptedPerson.InvalidTagEscapesAsRuntime | src/main/java/seedu/address/storage/JsonAdaptedPerson.java:72-78 | the first failing tag's IllegalValueException comes out wrapped in a RuntimeException |
| JsonAdaptedPerson.UncheckedTagErrorPropagates | src/main/java/seedu/address/storage/JsonAdaptedPerson.java:72-78 | an exception of the first failing tag other than an IllegalValueException is not caught and comes out unchanged |
| JsonAdaptedPerson.FirstFailureUnique | src/main/java/seedu/address/storage/JsonAdaptedPerson.java:72-78 | there is only one first failing tag |
| JsonAdaptedPerson.CheckedNeverRuntime | src/main/java/seedu/address/storage/JsonAdaptedPerson.java:71-78 | when the tag converter keeps its declared contract, the corrected conversion never fails with the RuntimeException wrapper, succeeds exactly when the as-written one does, and agrees with it wherever that one does not wrap |
| JsonAdaptedPerson.DuplicateStoredTagsEscapeUnchecked | src/main/java/seedu/address/storage/JsonAdaptedPerson.java:71-93 | with valid fields, loaded tags that repeat make both conversions fail alike, with an IllegalArgumentException: unchecked in Java and outside the declared `throws IllegalValueException` |
| JsonAdaptedPerson.RepeatedStoredTagEscapesUnchecked | src/main/java/seedu/address/storage/JsonAdaptedPerson.java:71-93 | a data file holding one valid tag `t` twice fails in both conversions with `Duplicate Tag found: t` |
| JsonAdaptedPerson.MissingAddressReported | src/main/java/seedu/address/storage/JsonAdaptedPerson.java:79-105 | with loaded tags and valid name, phone and email, a null address fails with `Person's Address field is missing!` |
| JsonAdaptedPerson.MissingNameReportedFirst | src/main/java/seedu/address/storage/JsonAdaptedPerson.java:79-127 | with loaded tags, a null name is reported whatever the other fields hold |
| JsonAdaptedPerson.TagsCheckedBeforeFields | src/main/java/seedu/address/storage/JsonAdaptedPerson.java:71-79 | a failing tag's exception, wrapped when it is an IllegalValueException, is reported before a missing name, never the missing-name error |
| JsonAdaptedPerson.RoundTrip | src/main/java/seedu/address/storage/JsonAdaptedPerson.java:57-94 | a Person with exactly the four valid single values and a TAG list of distinct valid tags is saved and loaded back unchanged, when valid tags round-trip through the tag converter |
| JsonAdaptedPerson.FieldsRoundTrip | src/main/java/seedu/address/storage/JsonAdaptedPerson.java:57-61 | the four saved properties of such a Person are valid and rebuild its single values |
| JsonAdaptedPerson.TagListRoundTrip | src/main/java/seedu/address/storage/JsonAdaptedPerson.java:62-78 | its saved tags load back as its TAG list, in order, when valid tags round-trip |
| JsonAdaptedPerson.FromPersonReadsOnlyStoredKinds | src/main/java/seedu/address/storage/JsonAdaptedPerson.java:57-64 | two persons that agree on NAME, PHONE, EMAIL, ADDRESS and the TAG list save alike: every other kind is dropped |
| JsonAdaptedPerson.MissingTagListComesBackEmpty | src/main/java/seedu/address/storage/JsonAdaptedPerson.java:57-94 | a Person saved without a TAG key loads back with an empty TAG list, and that Person is unequal to the original |

## Left out

- The UI, `AddCommandParser`, `SampleDataUtil`, the Jackson annotations and file storage are not modelled. They are rendering, argument tokenising, fixtures and I/O, with no attribute logic of their own.
- `Name`, `Phone`, `Email`, `JsonAdaptedTag` and `StringUtil.isNonZeroUnsignedInteger` are not modelled: their sources are not part of this model. They are the parameters collected in `External.Rules`. `External.NewName`, `NewPhone` and `NewEmail` take the three constructors to check their validator and keep the text, as Address and Tag do. Equality of these three classes is taken to be equality of the text.
- `Index` is not part of this model. `ParserUtil.FromOneBased` takes `Index.fromOneBased` to refuse numbers below one.
- `Person.toString`, `hashCode`, `getAttributeTypes`, `getSingleAttributes` and `getMultiAttributes` are not modelled. They only print or expose the two maps and have nothing to prove beyond the maps themselves.
- The Person constructor copies its maps into new EnumMaps, and `setMulti` copies its list. The model uses immutable values, so these copies and the receiver staying unchanged hold by construction.
- `requireNonNull` checks are not modelled, and neither are Java nulls other than the JSON properties. Dafny values are never null.
- `DateTime.Parse`: rejects hour 24, while `LocalDateTime.parse` under the SMART resolver reads `24:00` as midnight of the next day. Day clamping is modelled. It also rejects signed years such as `+10000-01-01 00:00`, which the `yyyy` pattern reads but which are longer than the sixteen characters the validator admits. An unsigned five-digit year is refused by both.
- `DateTime.Format`: only years from 1 to 9999 are formatted. Java writes `yyyy` with a sign above 9999 and as the year of era for year 0 and earlier, so `DatedRecord.Render` and the `Of` constructors require a timestamp in that range.
- `Persons.GetMultiAs`: its own contract states membership only. The order and multiplicity the stream filter keeps are stated by `Persons.GetMultiAsKeepsOrder`.
- `DateTime.Hash`: the nano-of-day fold of `LocalTime.hashCode` is written out. No property depends on its exact numbers, only on its being a function of the timestamp.
- `PersonAttribute.HashCode`: states only that the hash is a Java `int`. What the hash promises is stated by `HashAgreesWithEqualsExceptIntegers`, and its failure for the integer-backed classes by the Floor, YearOfStudy and Points lemmas.
- `PersonAttribute.ConsistentHashCode`: states only that the corrected hash is a Java `int`. Its promise is stated by `ConsistentHashAgreesWithEquals`.
- Text handling is ASCII only. `trim` removes characters up to U+0020, `\s` is the six regex whitespace characters, and `toUpperCase` and `\p{Alnum}` are ASCII. Locale-dependent case mapping is out of scope.
- The order in which a `HashSet` or `HashMap` iterates is not modelled. `ParseTags` returns a mathematical set, and the constructor visits the lists in declaration order, as an EnumMap does.
- `Persons.Set`: requires its receiver to be free of duplicates. Every Person the constructor builds is, so this is the class invariant, not an extra demand.

## Findings

| source | as written | input that shows it | evidently intended | confidence | as-written member | corrected member |
|---|---|---|---|---|---|---|
| src/main/java/seedu/address/model/person/attributes/PersonAttribute.java:29-32 | Floor, YearOfStudy and Points compare the parsed integer in `equals` but inherit a `hashCode` of the raw text, breaking the equals/hashCode contract. | `new Floor("07")` and `new Floor("7")` are equal, with hash codes 1543 and 55. A TAG list of those two floors passes the HashSet duplicate check. | Hash the parsed integer, so equal attributes hash alike and the duplicate check is plain equality | not executed | FloorAttribute.EqualFloorsHashDifferently | PersonAttribute.ConsistentHashAgreesWithEquals |
| src/main/java/seedu/address/storage/JsonAdaptedPerson.java:72-78 | An invalid stored tag's checked IllegalValueException is rethrown as an unchecked RuntimeException, escaping the `throws IllegalValueException` of `toModelType`. | A JSON person whose first tag fails `JsonAdaptedTag.toModelType` | Report the tag's IllegalValueException like every other invalid field | not executed | JsonAdaptedPerson.InvalidTagEscapesAsRuntime | JsonAdaptedPerson.CheckedNeverRuntime |

Related members for the first finding:

- As written: `PersonAttribute.HashCode` is the hash. `YearOfStudyAttribute.SignedYearEqualButHashesDifferently`, `PointsAttribute.PaddedPointsEqualButHashDifferently` and `Persons.EqualFloorsPassDuplicateCheck` show the same break.
- Corrected: `PersonAttribute.ConsistentHashCode` is the hash. `FloorAttribute.EqualFloorsHashAlikeWhenCorrected` and `Persons.CorrectedClashIsEquals` are proved about it.
- `Persons` keeps the as-written hash in its duplicate check, because that is the check the constructor runs.

Related members for the second finding:

- As written: `JsonAdaptedPerson.ToModelType`. `JsonAdaptedPerson.UncheckedTagErrorPropagates` shows that the catch wraps only IllegalValueException: an unchecked exception of the tag converter passes through unchanged.
- Corrected: `JsonAdaptedPerson.ToModelTypeChecked`.
- The correction covers tag conversion failures only. The Person constructor's duplicate check throws an IllegalArgumentException, which Java also counts as unchecked. So a data file that holds a valid tag twice still fails with an undeclared exception in both versions: `JsonAdaptedPerson.DuplicateStoredTagsEscapeUnchecked` and `JsonAdaptedPerson.RepeatedStoredTagEscapesUnchecked`. In the model, `Runtime` stands only for the `new RuntimeException(e)` wrapper, so "never `Runtime`" means never that wrapper.

Three behaviours look unintended but are design choices rather than defects, so they are stated as lemmas instead of findings:

- The required-field check is commented out: `Persons.NoRequiredFieldCheck`.
- An empty TAG list and a missing TAG key are unequal: `Persons.EmptyTagListIsNotMissing`.
- The JSON form keeps only four of the eleven kinds: `JsonAdaptedPerson.FromPersonReadsOnlyStoredKinds`.
