/** JsonAdaptedPerson: the form a Person takes in the JSON data file. Only the name, phone,
    email, address and tags are stored; every other attribute is dropped on saving. */
module JsonAdaptedPerson {
  import opened Wrappers
  import opened Exceptions
  import opened PersonAttribute
  import opened External
  import opened AttributeTypes
  import opened Persons
  import AddressAttribute
  import TagAttribute

  /** The five JSON properties; an absent or null property is `None`. */
  datatype JsonPerson = JsonPerson(
    name: Option<string>,
    phone: Option<string>,
    email: Option<string>,
    address: Option<string>,
    tags: seq<JsonTag>)

  /** The kinds with a JSON property of their own, in the order they are validated. */
  predicate IsStoredKind(k: Kind) {
    k == NAME || k == PHONE || k == EMAIL || k == ADDRESS
  }

  /** `getSimpleName()` of the stored kinds' classes. */
  function SimpleName(k: Kind): string
    requires IsStoredKind(k)
  {
    match k
    case NAME => "Name"
    case PHONE => "Phone"
    case EMAIL => "Email"
    case ADDRESS => "Address"
  }

  /** `String.format(MISSING_FIELD_MESSAGE_FORMAT, name)`. */
  function MissingFieldMessage(className: string): string {
    "Person's " + className + " field is missing!"
  }

  /** The property `v` holds exactly the text of `p`'s attribute of kind `k`, present
      when that attribute exists and is an instance of `c`. */
  predicate Stores(p: Person, k: Kind, c: AttributeClass, v: Option<string>) {
    && (v.Some? <==> k in p.singles && ClassOf(p.singles[k]) == c)
    && (v.Some? ==> v.value == p.singles[k].value)
  }

  /** `get(type, Clazz.class).map(a -> a.value).orElse(null)`. */
  function TextOf(p: Person, k: Kind, c: AttributeClass): (v: Option<string>)
    ensures Stores(p, k, c, v)
  {
    match GetAs(p, k, c)
    case Some(a) => Some(a.value)
    case None => None
  }

  /** `new JsonAdaptedPerson(source)`: the four texts, each present only when the entry
      exists with the expected class, and the person's tags in order. */
  function FromPerson(rules: Rules, p: Person): (j: JsonPerson)
    ensures && Stores(p, NAME, NameClass, j.name) && Stores(p, PHONE, PhoneClass, j.phone)
            && Stores(p, EMAIL, EmailClass, j.email) && Stores(p, ADDRESS, AddressClass, j.address)
    ensures |j.tags| == |GetMultiAs(p, TAG, TagClass)|
    ensures forall i :: 0 <= i < |j.tags| ==> j.tags[i] == rules.tagToJson(GetMultiAs(p, TAG, TagClass)[i])
  {
    var tags := GetMultiAs(p, TAG, TagClass);
    JsonPerson(TextOf(p, NAME, NameClass), TextOf(p, PHONE, PhoneClass), TextOf(p, EMAIL, EmailClass),
               TextOf(p, ADDRESS, AddressClass),
               seq(|tags|, i requires 0 <= i < |tags| => rules.tagToJson(tags[i])))
  }

  /** The validator each `validateAndGet...` method calls: `Name.isValidName` and so on. */
  predicate FieldValid(rules: Rules, k: Kind, s: string)
    requires IsStoredKind(k)
  {
    match k
    case NAME => rules.isValidName(s)
    case PHONE => rules.isValidPhone(s)
    case EMAIL => rules.isValidEmail(s)
    case ADDRESS => AddressAttribute.IsValidAddress(s)
  }

  /** The `MESSAGE_CONSTRAINTS` each of them reports. */
  function FieldMessage(rules: Rules, k: Kind): string
    requires IsStoredKind(k)
  {
    match k
    case NAME => rules.nameMessage
    case PHONE => rules.phoneMessage
    case EMAIL => rules.emailMessage
    case ADDRESS => AddressAttribute.MESSAGE_CONSTRAINTS
  }

  /** The constructor each of them calls: `new Name(name)` and so on. */
  function NewField(rules: Rules, k: Kind, s: string): (r: Result<Attribute, Exception>)
    requires IsStoredKind(k)
    ensures FieldValid(rules, k, s) ==> r.Success? && ClassOf(r.value) == AttributeClassOf(k) && r.value.value == s
  {
    match k
    case NAME => NewName(rules, s)
    case PHONE => NewPhone(rules, s)
    case EMAIL => NewEmail(rules, s)
    case ADDRESS => AddressAttribute.New(s)
  }

  /** Those direct calls are the kind's entries in the attribute catalogue. */
  lemma FieldRulesAreCatalogueRules(rules: Rules, k: Kind, s: string)
    requires IsStoredKind(k)
    ensures FieldValid(rules, k, s) <==> IsValid(rules, k, s)
    ensures FieldMessage(rules, k) == MessageConstraints(rules, k)
    ensures NewField(rules, k, s) == Create(rules, k, s)
  {
  }

  /** `validateAndGetName()` and its three siblings: missing, then invalid, then built. */
  function ValidateAndGet(rules: Rules, k: Kind, v: Option<string>): (r: Result<Attribute, Exception>)
    requires IsStoredKind(k)
    ensures v.None? ==> r == Failure(IllegalValue(MissingFieldMessage(SimpleName(k))))
    ensures v.Some? ==> (r.Success? <==> FieldValid(rules, k, v.value))
    ensures v.Some? && r.Failure? ==> r.error == IllegalValue(FieldMessage(rules, k))
    ensures r.Success? ==> ClassOf(r.value) == AttributeClassOf(k) && r.value.value == v.value
  {
    match v
    case None => Failure(IllegalValue(MissingFieldMessage(SimpleName(k))))
    case Some(s) =>
      if !FieldValid(rules, k, s) then Failure(IllegalValue(FieldMessage(rules, k)))
      else NewField(rules, k, s)
  }

  /** All four properties are present and pass their validators. */
  predicate FieldsValid(rules: Rules, j: JsonPerson) {
    && j.name.Some? && rules.isValidName(j.name.value)
    && j.phone.Some? && rules.isValidPhone(j.phone.value)
    && j.email.Some? && rules.isValidEmail(j.email.value)
    && j.address.Some? && AddressAttribute.IsValidAddress(j.address.value)
  }

  /** The single values built from four valid properties. */
  function StoredSingles(j: JsonPerson): map<Kind, Attribute>
    requires j.name.Some? && j.phone.Some? && j.email.Some? && j.address.Some?
  {
    map[NAME := Name(j.name.value), PHONE := Phone(j.phone.value), EMAIL := Email(j.email.value),
        ADDRESS := Address(j.address.value)]
  }

  /** The stored kinds in the order `toModelType` validates them. */
  function FieldKind(n: nat): (k: Kind)
    requires n < 4
    ensures IsStoredKind(k)
  {
    if n == 0 then NAME else if n == 1 then PHONE else if n == 2 then EMAIL else ADDRESS
  }

  /** The property of a stored kind. */
  function FieldText(j: JsonPerson, k: Kind): Option<string>
    requires IsStoredKind(k)
  {
    match k
    case NAME => j.name
    case PHONE => j.phone
    case EMAIL => j.email
    case ADDRESS => j.address
  }

  /** The outcome of the `n`-th `validateAndGet...` call. */
  function FieldResult(rules: Rules, j: JsonPerson, n: nat): Result<Attribute, Exception>
    requires n < 4
  {
    ValidateAndGet(rules, FieldKind(n), FieldText(j, FieldKind(n)))
  }

  /** The `n`-th call is the first one to throw. */
  predicate FirstInvalidField(rules: Rules, j: JsonPerson, n: nat) {
    && n < 4
    && FieldResult(rules, j, n).Failure?
    && forall m: nat :: m < n ==> FieldResult(rules, j, m).Success?
  }

  /** The four `validateAndGet...` calls of `toModelType`, in order, gathered into the
      map of single values it builds. The first call that throws decides the error. */
  function ValidateFields(rules: Rules, j: JsonPerson): (r: Result<map<Kind, Attribute>, Exception>)
    ensures r.Success? <==> FieldsValid(rules, j)
    ensures r.Success? ==> r.value == StoredSingles(j)
    ensures r.Failure? ==> r.error.IllegalValue?
    ensures r.Failure? ==> exists n: nat :: FirstInvalidField(rules, j, n) && r.error == FieldResult(rules, j, n).error
  {
    assert FieldKind(0) == NAME && FieldKind(1) == PHONE && FieldKind(2) == EMAIL && FieldKind(3) == ADDRESS;
    if FieldResult(rules, j, 0).Failure? then
      assert FirstInvalidField(rules, j, 0);
      Failure(FieldResult(rules, j, 0).error)
    else if FieldResult(rules, j, 1).Failure? then
      assert FirstInvalidField(rules, j, 1);
      Failure(FieldResult(rules, j, 1).error)
    else if FieldResult(rules, j, 2).Failure? then
      assert FirstInvalidField(rules, j, 2);
      Failure(FieldResult(rules, j, 2).error)
    else if FieldResult(rules, j, 3).Failure? then
      assert FirstInvalidField(rules, j, 3);
      Failure(FieldResult(rules, j, 3).error)
    else
      Success(map[NAME := FieldResult(rules, j, 0).value, PHONE := FieldResult(rules, j, 1).value,
                  EMAIL := FieldResult(rules, j, 2).value, ADDRESS := FieldResult(rules, j, 3).value])
  }

  /** The catch clause of the tag-loading lambda: an IllegalValueException is rethrown inside
      a RuntimeException, and any unchecked exception passes through as it is. */
  function WrapTagError(e: Exception): (w: Exception)
    ensures e.IllegalValue? ==> w.Runtime? && w.cause == e
    ensures !e.IllegalValue? ==> w == e
  {
    if e.IllegalValue? then Runtime(e) else e
  }

  /** `toModelType()` as written: the tags are converted first, and a tag's checked
      IllegalValueException is rethrown wrapped in a RuntimeException; then the four
      fields are validated in order; then the Person constructor runs its duplicate check. */
  function ToModelType(rules: Rules, j: JsonPerson): (r: Result<Person, Exception>)
    ensures forall i :: FirstFailureAt(rules.tagFromJson, j.tags, i) ==>
              r == Failure(WrapTagError(rules.tagFromJson(j.tags[i]).error))
    ensures r.Success? ==> && FieldsValid(rules, j)
                           && r.value.singles == StoredSingles(j)
                           && r.value.multis.Keys == {TAG}
                           && |GetMulti(r.value, TAG)| == |j.tags|
                           && Valid(r.value)
    ensures r.Success? ==> && MapAll(rules.tagFromJson, j.tags).Success?
                           && GetMulti(r.value, TAG) == MapAll(rules.tagFromJson, j.tags).value
  {
    var tags := MapAll(rules.tagFromJson, j.tags);
    if tags.Failure? then
      assert forall i :: FirstFailureAt(rules.tagFromJson, j.tags, i) ==> tags.error == rules.tagFromJson(j.tags[i]).error by {
        forall i | FirstFailureAt(rules.tagFromJson, j.tags, i)
          ensures tags.error == rules.tagFromJson(j.tags[i]).error
        {
          var n :| FirstFailureAt(rules.tagFromJson, j.tags, n) && tags.error == rules.tagFromJson(j.tags[n]).error;
          FirstFailureUnique(rules.tagFromJson, j.tags, i, n);
        }
      }
      Failure(WrapTagError(tags.error))
    else
      assert forall i :: !FirstFailureAt(rules.tagFromJson, j.tags, i);
      Assemble(rules, j, tags.value)
  }

  /** The part of `toModelType` after the tags: the four fields, then the constructor.
      A bad field is the declared IllegalValueException; a duplicated tag is the
      constructor's IllegalArgumentException, which Java also counts as unchecked. */
  function Assemble(rules: Rules, j: JsonPerson, tags: seq<Attribute>): (r: Result<Person, Exception>)
    ensures r.Success? <==> FieldsValid(rules, j) && !HasDuplicate(tags)
    ensures r.Success? ==> r.value == Person(StoredSingles(j), map[TAG := tags]) && Valid(r.value)
    ensures r.Failure? ==> !r.error.Runtime?
    ensures r.Failure? && !FieldsValid(rules, j) ==> r.error.IllegalValue?
    ensures r.Failure? && FieldsValid(rules, j) ==> r.error == CheckNoDuplicates(TAG, tags).error
  {
    var singles :- ValidateFields(rules, j);
    OneListChecked(singles, TAG, tags);
    Persons.New(singles, map[TAG := tags])
  }

  /** The evidently intended `toModelType`: a bad tag reports its own IllegalValueException. */
  function ToModelTypeChecked(rules: Rules, j: JsonPerson): (r: Result<Person, Exception>)
    ensures (exists i :: FirstFailureAt(rules.tagFromJson, j.tags, i)) ==> r.Failure?
  {
    var tags :- MapAll(rules.tagFromJson, j.tags);
    Assemble(rules, j, tags)
  }

  /** As written, a tag that fails with an IllegalValueException escapes as an unchecked
      RuntimeException instead of the IllegalValueException the method declares. */
  lemma InvalidTagEscapesAsRuntime(rules: Rules, j: JsonPerson, i: nat)
    requires FirstFailureAt(rules.tagFromJson, j.tags, i)
    requires rules.tagFromJson(j.tags[i]).error.IllegalValue?
    ensures ToModelType(rules, j) == Failure(Runtime(rules.tagFromJson(j.tags[i]).error))
  {
  }

  /** An unchecked exception of the tag converter is not caught: it leaves `toModelType`
      unchanged. */
  lemma UncheckedTagErrorPropagates(rules: Rules, j: JsonPerson, i: nat)
    requires FirstFailureAt(rules.tagFromJson, j.tags, i)
    requires !rules.tagFromJson(j.tags[i]).error.IllegalValue?
    ensures ToModelType(rules, j) == Failure(rules.tagFromJson(j.tags[i]).error)
  {
  }

  /** There is only one first failure. */
  lemma FirstFailureUnique<A, B, E>(f: A -> Result<B, E>, xs: seq<A>, i: int, n: int)
    requires FirstFailureAt(f, xs, i) && FirstFailureAt(f, xs, n)
    ensures i == n
  {
  }

  /** The corrected conversion reports the tag's own error, which under coherent rules is
      an IllegalValueException: no failure of it is the RuntimeException wrapper. It agrees
      with the as-written conversion wherever that one does not wrap. */
  lemma CheckedNeverRuntime(rules: Rules, j: JsonPerson)
    requires Coherent(rules)
    ensures ToModelTypeChecked(rules, j).Failure? ==> !ToModelTypeChecked(rules, j).error.Runtime?
    ensures ToModelTypeChecked(rules, j).Success? <==> ToModelType(rules, j).Success?
    ensures !(ToModelType(rules, j).Failure? && ToModelType(rules, j).error.Runtime?) ==>
              ToModelTypeChecked(rules, j) == ToModelType(rules, j)
  {
    var tags := MapAll(rules.tagFromJson, j.tags);
    if tags.Failure? {
      var n :| FirstFailureAt(rules.tagFromJson, j.tags, n) && tags.error == rules.tagFromJson(j.tags[n]).error;
      assert rules.tagFromJson(j.tags[n]).error.IllegalValue?;
    }
  }

  /** Duplicated stored tags get past both conversions' handling of tag errors: the
      constructor's duplicate check throws an IllegalArgumentException, an unchecked
      exception that the method's `throws IllegalValueException` does not declare either. */
  lemma DuplicateStoredTagsEscapeUnchecked(rules: Rules, j: JsonPerson)
    requires FieldsValid(rules, j)
    requires MapAll(rules.tagFromJson, j.tags).Success?
    requires HasDuplicate(MapAll(rules.tagFromJson, j.tags).value)
    ensures ToModelType(rules, j) == ToModelTypeChecked(rules, j)
    ensures ToModelType(rules, j).Failure? && ToModelType(rules, j).error.IllegalArgument?
  {
  }

  /** A data file holding one valid tag twice: both conversions report the duplicate tag. */
  lemma RepeatedStoredTagEscapesUnchecked(rules: Rules, j: JsonPerson, t: string)
    requires FieldsValid(rules, j)
    requires |j.tags| == 2 && j.tags[0] == j.tags[1]
    requires rules.tagFromJson(j.tags[0]) == Success(Tag(t))
    ensures ToModelType(rules, j) == ToModelTypeChecked(rules, j)
    ensures ToModelTypeChecked(rules, j) == Failure(IllegalArgument("Duplicate Tag found: " + t))
  {
    var tags := [Tag(t), Tag(t)];
    var loaded := MapAll(rules.tagFromJson, j.tags);
    assert loaded.Success? && loaded.value == tags by {
      assert rules.tagFromJson(j.tags[1]) == Success(Tag(t));
      assert loaded.value[0] == Tag(t) && loaded.value[1] == Tag(t);
    }
    DuplicateTagsRejected(StoredSingles(j), t);
    OneListChecked(StoredSingles(j), TAG, tags);
  }

  /** Fields are checked in the order name, phone, email, address: with the tags loaded
      and the earlier fields valid, a missing address is reported by its class name. */
  lemma MissingAddressReported(rules: Rules, j: JsonPerson)
    requires MapAll(rules.tagFromJson, j.tags).Success?
    requires j.name.Some? && rules.isValidName(j.name.value)
    requires j.phone.Some? && rules.isValidPhone(j.phone.value)
    requires j.email.Some? && rules.isValidEmail(j.email.value)
    requires j.address.None?
    ensures ToModelType(rules, j) == Failure(IllegalValue("Person's Address field is missing!"))
  {
    assert MissingFieldMessage("Address") == "Person's Address field is missing!";
  }

  /** A missing name is reported before anything is said about the other fields. */
  lemma MissingNameReportedFirst(rules: Rules, j: JsonPerson)
    requires MapAll(rules.tagFromJson, j.tags).Success?
    requires j.name.None?
    ensures ToModelType(rules, j) == Failure(IllegalValue("Person's Name field is missing!"))
  {
    assert MissingFieldMessage("Name") == "Person's Name field is missing!";
  }

  /** With the tags loaded, the first of the four fields to fail decides the error, for
      every field and every reason: missing or invalid. */
  lemma FirstInvalidFieldReported(rules: Rules, j: JsonPerson, n: nat)
    requires MapAll(rules.tagFromJson, j.tags).Success?
    requires FirstInvalidField(rules, j, n)
    ensures ToModelType(rules, j) == Failure(FieldResult(rules, j, n).error)
  {
    var r := ValidateFields(rules, j);
    assert r.Failure? by {
      assert !FieldsValid(rules, j) by {
        assert FieldKind(0) == NAME && FieldKind(1) == PHONE && FieldKind(2) == EMAIL && FieldKind(3) == ADDRESS;
      }
    }
    var m: nat :| FirstInvalidField(rules, j, m) && r.error == FieldResult(rules, j, m).error;
    assert m == n;
  }

  /** The tags are converted before any field is looked at: a bad tag wins over a missing
      name. */
  lemma TagsCheckedBeforeFields(rules: Rules, j: JsonPerson, i: nat)
    requires FirstFailureAt(rules.tagFromJson, j.tags, i) && j.name.None?
    ensures ToModelType(rules, j) == Failure(WrapTagError(rules.tagFromJson(j.tags[i]).error))
    ensures ToModelType(rules, j) != Failure(IllegalValue(MissingFieldMessage("Name")))
  {
  }

  /** The single values of a Person the data file can hold unchanged: exactly the four
      stored kinds, each of its class and valid. */
  predicate StorableSingles(rules: Rules, p: Person) {
    && (forall k :: k in p.singles ==> IsStoredKind(k))
    && NAME in p.singles && p.singles[NAME].Name? && rules.isValidName(p.singles[NAME].value)
    && PHONE in p.singles && p.singles[PHONE].Phone? && rules.isValidPhone(p.singles[PHONE].value)
    && EMAIL in p.singles && p.singles[EMAIL].Email? && rules.isValidEmail(p.singles[EMAIL].value)
    && ADDRESS in p.singles && p.singles[ADDRESS].Address? && AddressAttribute.IsValidAddress(p.singles[ADDRESS].value)
  }

  /** A Person the data file can hold unchanged: storable single values, and a TAG list,
      the only list, of distinct valid tags. */
  predicate Storable(rules: Rules, p: Person) {
    && StorableSingles(rules, p)
    && (forall k :: k in p.multis <==> k == TAG)
    && (forall i :: 0 <= i < |p.multis[TAG]| ==>
          ClassOf(p.multis[TAG][i]) == TagClass && TagAttribute.IsValidTag(p.multis[TAG][i].value))
    && !HasDuplicate(p.multis[TAG])
  }

  /** Saving a storable Person and loading it back gives the same Person. */
  lemma RoundTrip(rules: Rules, p: Person)
    requires TagsRoundTrip(rules) && Storable(rules, p)
    ensures ToModelType(rules, FromPerson(rules, p)) == Success(p)
  {
    var j := FromPerson(rules, p);
    TagListRoundTrip(rules, p, j);
    FieldsRoundTrip(rules, p, j);
    var multis: map<Kind, seq<Attribute>> := map[TAG := p.multis[TAG]];
    assert multis == p.multis by {
      assert forall k :: k in multis <==> k in p.multis;
    }
  }

  /** The four properties of a storable Person's JSON are valid and rebuild its single
      values. */
  lemma FieldsRoundTrip(rules: Rules, p: Person, j: JsonPerson)
    requires StorableSingles(rules, p) && j == FromPerson(rules, p)
    ensures FieldsValid(rules, j) && StoredSingles(j) == p.singles
  {
    var m := StoredSingles(j);
    assert m == p.singles by {
      assert forall k :: k in m <==> k in p.singles;
    }
  }

  /** The tags survive saving and loading, in order. */
  lemma TagListRoundTrip(rules: Rules, p: Person, j: JsonPerson)
    requires TagsRoundTrip(rules) && Storable(rules, p) && j == FromPerson(rules, p)
    ensures MapAll(rules.tagFromJson, j.tags) == Success(p.multis[TAG])
  {
    var xs := p.multis[TAG];
    assert GetMultiAs(p, TAG, TagClass) == xs;
    forall i | 0 <= i < |j.tags| ensures rules.tagFromJson(j.tags[i]) == Success(xs[i]) {
      assert xs[i] == Tag(xs[i].value);
    }
    var r := MapAll(rules.tagFromJson, j.tags);
    assert r.Success?;
    assert r.value == xs;
  }

  /** Saving reads only the four stored kinds and the TAG list: two persons that agree on
      those save to the same JSON. */
  lemma FromPersonReadsOnlyStoredKinds(rules: Rules, p: Person, q: Person)
    requires forall k :: IsStoredKind(k) ==> GetAttribute(p, k) == GetAttribute(q, k)
    requires GetMulti(p, TAG) == GetMulti(q, TAG)
    ensures FromPerson(rules, p) == FromPerson(rules, q)
  {
    assert GetAttribute(p, NAME) == GetAttribute(q, NAME) && GetAttribute(p, PHONE) == GetAttribute(q, PHONE);
    assert GetAttribute(p, EMAIL) == GetAttribute(q, EMAIL) && GetAttribute(p, ADDRESS) == GetAttribute(q, ADDRESS);
  }

  /** A Person saved without a TAG entry comes back with an empty TAG list, which the
      Person equality tells apart from the original. */
  lemma MissingTagListComesBackEmpty(rules: Rules, p: Person)
    requires StorableSingles(rules, p) && p.multis == map[]
    ensures ToModelType(rules, FromPerson(rules, p)) == Success(Person(p.singles, map[TAG := []]))
    ensures !PersonEquals(ToModelType(rules, FromPerson(rules, p)).value, p)
  {
    var j := FromPerson(rules, p);
    FieldsRoundTrip(rules, p, j);
    var empty: seq<Attribute> := [];
    assert |j.tags| == 0;
    assert MapAll(rules.tagFromJson, j.tags) == Success(empty);
    assert !HasDuplicate(empty);
    var m: map<Kind, seq<Attribute>> := map[TAG := empty];
    assert TAG in m && TAG !in p.multis;
  }
}
