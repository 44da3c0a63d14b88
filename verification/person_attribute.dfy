/** PersonAttribute and its subclasses as one tagged union. Every variant carries the
    `value` string the base class stores, plus the payload its own `equals` compares. */
module PersonAttribute {
  import opened JavaText
  import opened JavaInt
  import DateTime

  /** Gender.GenderType. */
  datatype GenderType = MALE | FEMALE | OTHER

  /** The runtime class of an attribute, as `getAttributeClass()` and `Class::isInstance` see it. */
  datatype AttributeClass =
    | NameClass | PhoneClass | EmailClass | YearOfStudyClass | AddressClass | RoomClass
    | FloorClass | GenderClass | CcaPointsClass | DemeritClass | TagClass | PointsClass

  datatype Attribute =
    | Name(value: string)
    | Phone(value: string)
    | Email(value: string)
    | YearOfStudy(value: string, year: int)
    | Address(value: string)
    | Room(value: string)
    | Floor(value: string, floorNumber: int)
    | Gender(value: string, genderType: GenderType)
    | CcaPoints(value: string, description: string, timestamp: DateTime.LocalDateTime)
    | Demerit(value: string, description: string, timestamp: DateTime.LocalDateTime)
    | Tag(value: string)
    | Points(value: string, points: int)

  function ClassOf(a: Attribute): AttributeClass {
    match a
    case Name(_) => NameClass
    case Phone(_) => PhoneClass
    case Email(_) => EmailClass
    case YearOfStudy(_, _) => YearOfStudyClass
    case Address(_) => AddressClass
    case Room(_) => RoomClass
    case Floor(_, _) => FloorClass
    case Gender(_, _) => GenderClass
    case CcaPoints(_, _, _) => CcaPointsClass
    case Demerit(_, _, _) => DemeritClass
    case Tag(_) => TagClass
    case Points(_, _) => PointsClass
  }

  /** `GenderType.name()`. */
  function GenderName(g: GenderType): string {
    match g
    case MALE => "MALE"
    case FEMALE => "FEMALE"
    case OTHER => "OTHER"
  }

  /** `toString()`: the base class returns `value`; Tag wraps it in brackets. */
  function ToString(a: Attribute): (r: string)
    ensures a.Tag? ==> r == "[" + a.value + "]"
    ensures a.Tag? ==> |r| == |a.value| + 2 && r[0] == '[' && r[|r| - 1] == ']' && r[1..|r| - 1] == a.value
    ensures !a.Tag? ==> r == a.value
  {
    if a.Tag? then "[" + a.value + "]" else a.value
  }

  /** The printed form gives the stored text back: two attributes of the same class that
      print alike hold the same text. */
  lemma ToStringDeterminesText(a: Attribute, b: Attribute)
    requires ClassOf(a) == ClassOf(b) && ToString(a) == ToString(b)
    ensures a.value == b.value
  {
    if a.Tag? {
      assert b.Tag?;
      var r := ToString(a);
      assert a.value == r[1..|r| - 1] == b.value;
    }
  }

  /** `String.hashCode()`: `s[0]*31^(n-1) + ... + s[n-1]` in `int` arithmetic. */
  function StringHash(s: string): (h: int)
    ensures IsInt32(h)
  {
    if |s| == 0 then 0 else Wrap32(31 * StringHash(s[..|s| - 1]) + s[|s| - 1] as int)
  }

  /** `hashCode()` as written: the base class hashes `value`; CcaPoints and Demerit
      override it with `description.hashCode() + timestamp.hashCode()`. */
  function HashCode(a: Attribute): (h: int)
    ensures IsInt32(h)
  {
    match a
    case CcaPoints(_, d, t) => Wrap32(StringHash(d) + DateTime.Hash(t))
    case Demerit(_, d, t) => Wrap32(StringHash(d) + DateTime.Hash(t))
    case _ => StringHash(a.value)
  }

  /** `equals(Object)`: each class compares only with its own class, on its own payload. */
  predicate Equals(a: Attribute, b: Attribute) {
    match (a, b)
    case (Name(x), Name(y)) => x == y
    case (Phone(x), Phone(y)) => x == y
    case (Email(x), Email(y)) => x == y
    case (YearOfStudy(_, m), YearOfStudy(_, n)) => m == n
    case (Address(x), Address(y)) => x == y
    case (Room(x), Room(y)) => x == y
    case (Floor(_, m), Floor(_, n)) => m == n
    case (Gender(_, g), Gender(_, h)) => g == h
    case (CcaPoints(_, d, t), CcaPoints(_, e, u)) => d == e && t == u
    case (Demerit(_, d, t), Demerit(_, e, u)) => d == e && t == u
    case (Tag(x), Tag(y)) => x == y
    case (Points(_, m), Points(_, n)) => m == n
    case _ => false
  }

  /** The link every constructor establishes between `value` and a parsed payload. */
  predicate PayloadMatchesValue(a: Attribute) {
    match a
    case Gender(v, g) => v == GenderName(g)
    case Floor(v, n) => ParseInt(v) == Wrappers.Some(n)
    case YearOfStudy(v, n) => ParseInt(v) == Wrappers.Some(n)
    case Points(v, n) => ParseInt(v) == Wrappers.Some(n)
    case _ => true
  }

  /** Every variant's `equals` is reflexive and symmetric... */
  lemma EqualsReflexiveSymmetric(a: Attribute, b: Attribute)
    ensures Equals(a, a)
    ensures Equals(a, b) <==> Equals(b, a)
  {
  }

  /** ...and transitive, so it is an equivalence relation. */
  lemma EqualsTransitive(a: Attribute, b: Attribute, c: Attribute)
    requires Equals(a, b) && Equals(b, c)
    ensures Equals(a, c)
  {
    match a
    case CcaPoints(_, _, _) => assert b.CcaPoints? && c.CcaPoints?;
    case Demerit(_, _, _) => assert b.Demerit? && c.Demerit?;
    case _ => assert ClassOf(a) == ClassOf(b) == ClassOf(c);
  }

  /** Objects of different classes are never equal: a CcaPoints and a Demerit with the
      same payload differ. */
  lemma EqualsRespectsClass(a: Attribute, b: Attribute)
    requires Equals(a, b)
    ensures ClassOf(a) == ClassOf(b)
  {
  }

  /** Where `equals` compares the text or the gender, equal attributes have equal
      `value` strings, hence equal hashes. Floor, YearOfStudy and Points are the exceptions
      (see FloorAttribute.EqualFloorsHashDifferently). */
  lemma HashAgreesWithEqualsExceptIntegers(a: Attribute, b: Attribute)
    requires PayloadMatchesValue(a) && PayloadMatchesValue(b) && Equals(a, b)
    requires !a.Floor? && !a.YearOfStudy? && !a.Points?
    ensures !a.CcaPoints? && !a.Demerit? ==> a.value == b.value
    ensures HashCode(a) == HashCode(b)
  {
  }

  /** `Integer.hashCode(n)` is `n` itself. */
  function IntegerHash(n: int): int {
    Wrap32(n)
  }

  /** The hash the integer-backed classes evidently need: hash the parsed number, the
      thing `equals` compares, and keep the inherited hash everywhere else. */
  function ConsistentHashCode(a: Attribute): (h: int)
    ensures IsInt32(h)
  {
    match a
    case Floor(_, n) => IntegerHash(n)
    case YearOfStudy(_, n) => IntegerHash(n)
    case Points(_, n) => IntegerHash(n)
    case _ => HashCode(a)
  }

  /** The corrected hash agrees with `equals` for every attribute a constructor can make. */
  lemma ConsistentHashAgreesWithEquals(a: Attribute, b: Attribute)
    requires PayloadMatchesValue(a) && PayloadMatchesValue(b)
    requires Equals(a, b)
    ensures ConsistentHashCode(a) == ConsistentHashCode(b)
  {
    if !a.Floor? && !a.YearOfStudy? && !a.Points? {
      HashAgreesWithEqualsExceptIntegers(a, b);
    }
  }
}
