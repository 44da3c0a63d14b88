/** The collaborators of the core whose code is not part of this model: the Name, Phone
    and Email classes, JsonAdaptedTag and `StringUtil.isNonZeroUnsignedInteger`. Their
    rules are parameters, so every property proved about the core holds whatever those
    rules are. */
module External {
  import opened Wrappers
  import opened Exceptions
  import opened JavaInt
  import opened PersonAttribute
  import TagAttribute

  /** A tag as the JSON file stores it: the text of its `tagName` property. */
  type JsonTag = string

  datatype Rules = Rules(
    /** `Name.isValidName` and `Name.MESSAGE_CONSTRAINTS` */
    isValidName: string -> bool,
    nameMessage: string,
    /** `Phone.isValidPhone` and `Phone.MESSAGE_CONSTRAINTS` */
    isValidPhone: string -> bool,
    phoneMessage: string,
    /** `Email.isValidEmail` and `Email.MESSAGE_CONSTRAINTS` */
    isValidEmail: string -> bool,
    emailMessage: string,
    /** `new JsonAdaptedTag(tag)` */
    tagToJson: Attribute -> JsonTag,
    /** `JsonAdaptedTag.toModelType()` */
    tagFromJson: JsonTag -> Result<Attribute, Exception>,
    /** `StringUtil.isNonZeroUnsignedInteger` */
    isNonZeroUnsignedInteger: string -> bool)

  /** What the names of the unseen members promise: `toModelType` only ever throws its
      declared IllegalValueException and only ever yields a Tag, and a string accepted as a
      non-zero unsigned integer parses to a positive `int`. */
  ghost predicate Coherent(rules: Rules) {
    && (forall j :: rules.tagFromJson(j).Failure? ==> rules.tagFromJson(j).error.IllegalValue?)
    && (forall j :: rules.tagFromJson(j).Success? ==> rules.tagFromJson(j).value.Tag?)
    && (forall s :: rules.isNonZeroUnsignedInteger(s) ==> ParsesInRange(s, 1, INT_MAX))
  }

  /** Saving a tag a Tag can hold, one whose text `Tag.isValidTagName` accepts, and loading
      it back gives the same tag. */
  ghost predicate TagsRoundTrip(rules: Rules) {
    forall value :: TagAttribute.IsValidTag(value) ==> rules.tagFromJson(rules.tagToJson(Tag(value))) == Success(Tag(value))
  }

  /** `new Name(s)`, taken to follow the pattern of the classes this model does see:
      check the validator, then keep the text. */
  function NewName(rules: Rules, s: string): (r: Result<Attribute, Exception>)
    ensures r.Success? <==> rules.isValidName(s)
    ensures r.Success? ==> r.value == Name(s)
    ensures r.Failure? ==> r.error == IllegalArgument(rules.nameMessage)
  {
    if rules.isValidName(s) then Success(Name(s)) else Failure(IllegalArgument(rules.nameMessage))
  }

  /** `new Phone(s)`, on the same assumption. */
  function NewPhone(rules: Rules, s: string): (r: Result<Attribute, Exception>)
    ensures r.Success? <==> rules.isValidPhone(s)
    ensures r.Success? ==> r.value == Phone(s)
    ensures r.Failure? ==> r.error == IllegalArgument(rules.phoneMessage)
  {
    if rules.isValidPhone(s) then Success(Phone(s)) else Failure(IllegalArgument(rules.phoneMessage))
  }

  /** `new Email(s)`, on the same assumption. */
  function NewEmail(rules: Rules, s: string): (r: Result<Attribute, Exception>)
    ensures r.Success? <==> rules.isValidEmail(s)
    ensures r.Success? ==> r.value == Email(s)
    ensures r.Failure? ==> r.error == IllegalArgument(rules.emailMessage)
  {
    if rules.isValidEmail(s) then Success(Email(s)) else Failure(IllegalArgument(rules.emailMessage))
  }
}
