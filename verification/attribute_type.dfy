/** AttributeType: the closed catalogue of attribute kinds. Each kind carries a command
    prefix, a display name, the class of its values, a required flag, a multi-value flag,
    a factory, a validator and a constraint message. The lookups filter the catalogue in
    declaration order. */
module AttributeTypes {
  import opened Wrappers
  import opened Exceptions
  import opened PersonAttribute
  import opened External
  import AddressAttribute
  import RoomAttribute
  import FloorAttribute
  import YearOfStudyAttribute
  import GenderAttribute
  import TagAttribute
  import CcaPointsAttribute
  import DemeritAttribute
  import DatedRecord

  /** The enum constants, in declaration order (the spelling `DEMERIT_REORDS` is the
      program's own). */
  datatype Kind =
    | NAME | PHONE | EMAIL | YEAR_OF_STUDY
    | ADDRESS | ROOM | FLOOR | GENDER
    | CCA_POINT_RECORDS | DEMERIT_REORDS | TAG

  /** `values()`. */
  const Values: seq<Kind> :=
    [NAME, PHONE, EMAIL, YEAR_OF_STUDY, ADDRESS, ROOM, FLOOR, GENDER, CCA_POINT_RECORDS, DEMERIT_REORDS, TAG]

  /** `ordinal()`. */
  function Ordinal(k: Kind): nat {
    match k
    case NAME => 0
    case PHONE => 1
    case EMAIL => 2
    case YEAR_OF_STUDY => 3
    case ADDRESS => 4
    case ROOM => 5
    case FLOOR => 6
    case GENDER => 7
    case CCA_POINT_RECORDS => 8
    case DEMERIT_REORDS => 9
    case TAG => 10
  }

  function Prefix(k: Kind): string {
    match k
    case NAME => "n/"
    case PHONE => "p/"
    case EMAIL => "e/"
    case YEAR_OF_STUDY => "y/"
    case ADDRESS => "a/"
    case ROOM => "r/"
    case FLOOR => "fl/"
    case GENDER => "g/"
    case CCA_POINT_RECORDS => "m/"
    case DEMERIT_REORDS => "d/"
    case TAG => "t/"
  }

  function DisplayName(k: Kind): string {
    match k
    case NAME => "Name"
    case PHONE => "Phone"
    case EMAIL => "Email"
    case YEAR_OF_STUDY => "Year of Study"
    case ADDRESS => "Address"
    case ROOM => "Room"
    case FLOOR => "Floor"
    case GENDER => "Gender"
    case CCA_POINT_RECORDS => "CCA Point Records"
    case DEMERIT_REORDS => "Demerits"
    case TAG => "Tag"
  }

  /** `getAttributeClass()`. */
  function AttributeClassOf(k: Kind): AttributeClass {
    match k
    case NAME => NameClass
    case PHONE => PhoneClass
    case EMAIL => EmailClass
    case YEAR_OF_STUDY => YearOfStudyClass
    case ADDRESS => AddressClass
    case ROOM => RoomClass
    case FLOOR => FloorClass
    case GENDER => GenderClass
    case CCA_POINT_RECORDS => CcaPointsClass
    case DEMERIT_REORDS => DemeritClass
    case TAG => TagClass
  }

  /** `isRequired()`: only NAME, PHONE and EMAIL are flagged, although the comment above
      the table groups YEAR_OF_STUDY with them. */
  predicate IsRequired(k: Kind) {
    k == NAME || k == PHONE || k == EMAIL
  }

  /** `isMultiValue()`. */
  predicate IsMultiValue(k: Kind) {
    k == CCA_POINT_RECORDS || k == DEMERIT_REORDS || k == TAG
  }

  /** `getMessageConstraints()`. */
  function MessageConstraints(rules: Rules, k: Kind): string {
    match k
    case NAME => rules.nameMessage
    case PHONE => rules.phoneMessage
    case EMAIL => rules.emailMessage
    case YEAR_OF_STUDY => YearOfStudyAttribute.MESSAGE_CONSTRAINTS
    case ADDRESS => AddressAttribute.MESSAGE_CONSTRAINTS
    case ROOM => RoomAttribute.MESSAGE_CONSTRAINTS
    case FLOOR => FloorAttribute.MESSAGE_CONSTRAINTS
    case GENDER => GenderAttribute.MESSAGE_CONSTRAINTS
    case CCA_POINT_RECORDS => CcaPointsAttribute.MESSAGE_CONSTRAINTS
    case DEMERIT_REORDS => DemeritAttribute.MESSAGE_CONSTRAINTS
    case TAG => TagAttribute.MESSAGE_CONSTRAINTS
  }

  /** `isValid(value)`: the kind's validator. */
  predicate IsValid(rules: Rules, k: Kind, s: string) {
    match k
    case NAME => rules.isValidName(s)
    case PHONE => rules.isValidPhone(s)
    case EMAIL => rules.isValidEmail(s)
    case YEAR_OF_STUDY => YearOfStudyAttribute.IsValidYear(s)
    case ADDRESS => AddressAttribute.IsValidAddress(s)
    case ROOM => RoomAttribute.IsValidRoom(s)
    case FLOOR => FloorAttribute.IsValidFloor(s)
    case GENDER => GenderAttribute.IsValidGender(s)
    case CCA_POINT_RECORDS => CcaPointsAttribute.IsValidCcaPoints(s)
    case DEMERIT_REORDS => DemeritAttribute.IsValidDemerit(s)
    case TAG => TagAttribute.IsValidTag(s)
  }

  /** `create(value)`: the kind's factory, that is, the one-string constructor of its class. */
  function Create(rules: Rules, k: Kind, s: string): Result<Attribute, Exception> {
    match k
    case NAME => NewName(rules, s)
    case PHONE => NewPhone(rules, s)
    case EMAIL => NewEmail(rules, s)
    case YEAR_OF_STUDY => YearOfStudyAttribute.New(s)
    case ADDRESS => AddressAttribute.New(s)
    case ROOM => RoomAttribute.New(s)
    case FLOOR => FloorAttribute.New(s)
    case GENDER => GenderAttribute.New(s)
    case CCA_POINT_RECORDS => CcaPointsAttribute.New(s)
    case DEMERIT_REORDS => DemeritAttribute.New(s)
    case TAG => TagAttribute.New(s)
  }

  /** The record kinds, whose constructors do not validate. */
  predicate IsRecordKind(k: Kind) {
    k == CCA_POINT_RECORDS || k == DEMERIT_REORDS
  }

  /** Kinds listed strictly in declaration order. */
  predicate Ascending(ks: seq<Kind>) {
    forall i, j :: 0 <= i < j < |ks| ==> Ordinal(ks[i]) < Ordinal(ks[j])
  }

  /** `stream().filter(keep).collect(toList())`. On an ascending list the result is
      pinned down: exactly the kept kinds, in declaration order. */
  function Filter(ks: seq<Kind>, keep: Kind -> bool): (r: seq<Kind>)
    ensures forall k :: k in r <==> k in ks && keep(k)
    ensures |r| <= |ks|
    ensures Ascending(ks) ==> Ascending(r)
  {
    if |ks| == 0 then []
    else
      var rest := Filter(ks[1..], keep);
      FilterStep(ks, rest);
      if keep(ks[0]) then [ks[0]] + rest else rest
  }

  lemma FilterStep(ks: seq<Kind>, rest: seq<Kind>)
    requires |ks| > 0 && forall k :: k in rest ==> k in ks[1..]
    requires Ascending(ks[1..]) ==> Ascending(rest)
    ensures Ascending(ks) ==> Ascending(rest) && Ascending([ks[0]] + rest)
  {
    if Ascending(ks) {
      assert Ascending(ks[1..]);
      forall k | k in rest ensures Ordinal(ks[0]) < Ordinal(k) {
        var j :| 0 <= j < |ks[1..]| && ks[1..][j] == k;
        assert ks[j + 1] == k;
      }
    }
  }

  /** Two ascending lists with the same kinds are the same list. */
  lemma {:induction false} AscendingUnique(a: seq<Kind>, b: seq<Kind>)
    requires Ascending(a) && Ascending(b)
    requires forall k :: k in a <==> k in b
    ensures a == b
    decreases |a|
  {
    assert |a| > 0 ==> a[0] in b;
    assert |b| > 0 ==> b[0] in a;
    if |a| > 0 && |b| > 0 {
      assert a[0] == b[0] by {
        assert a[0] in b && b[0] in a;
      }
      assert forall k :: k in a[1..] <==> k in b[1..] by {
        forall k ensures k in a[1..] <==> k in b[1..] {
          if k in a[1..] {
            var i :| 0 <= i < |a[1..]| && a[1..][i] == k;
            assert a[i + 1] == k && Ordinal(a[0]) < Ordinal(k);
            assert k in a;
            var j :| 0 <= j < |b| && b[j] == k;
            assert j != 0 && b[1..][j - 1] == k;
          }
          if k in b[1..] {
            var j :| 0 <= j < |b[1..]| && b[1..][j] == k;
            assert b[j + 1] == k && Ordinal(b[0]) < Ordinal(k);
            assert k in b;
            var i :| 0 <= i < |a| && a[i] == k;
            assert i != 0 && a[1..][i - 1] == k;
          }
        }
      }
      AscendingUnique(a[1..], b[1..]);
    }
  }

  /** Filtering the catalogue yields the one ascending list of the kept kinds. */
  lemma FilterOfCatalogue(keep: Kind -> bool, expected: seq<Kind>)
    requires Ascending(expected) && forall k :: k in expected <==> keep(k)
    ensures Filter(Values, keep) == expected
  {
    AllKindsListed();
    AscendingUnique(Filter(Values, keep), expected);
  }

  /** A kept and a dropped part of the same list account for all of it. */
  lemma {:induction false} FilterSplits(ks: seq<Kind>, keep: Kind -> bool)
    ensures |Filter(ks, keep)| + |Filter(ks, k => !keep(k))| == |ks|
  {
    if |ks| > 0 {
      FilterSplits(ks[1..], keep);
    }
  }

  /** The required kinds, listed in declaration order. */
  lemma RequiredKinds()
    ensures Ascending([NAME, PHONE, EMAIL])
    ensures forall k :: k in [NAME, PHONE, EMAIL] <==> IsRequired(k)
  {}

  /** The optional kinds, listed in declaration order. */
  lemma OptionalKinds()
    ensures Ascending([YEAR_OF_STUDY, ADDRESS, ROOM, FLOOR, GENDER, CCA_POINT_RECORDS, DEMERIT_REORDS, TAG])
    ensures forall k ::
      k in [YEAR_OF_STUDY, ADDRESS, ROOM, FLOOR, GENDER, CCA_POINT_RECORDS, DEMERIT_REORDS, TAG] <==> !IsRequired(k)
  {}

  /** The single-valued kinds, listed in declaration order. */
  lemma SingleValueKinds()
    ensures Ascending([NAME, PHONE, EMAIL, YEAR_OF_STUDY, ADDRESS, ROOM, FLOOR, GENDER])
    ensures forall k ::
      k in [NAME, PHONE, EMAIL, YEAR_OF_STUDY, ADDRESS, ROOM, FLOOR, GENDER] <==> !IsMultiValue(k)
  {}

  /** The multi-valued kinds, listed in declaration order. */
  lemma MultiValueKinds()
    ensures Ascending([CCA_POINT_RECORDS, DEMERIT_REORDS, TAG])
    ensures forall k :: k in [CCA_POINT_RECORDS, DEMERIT_REORDS, TAG] <==> IsMultiValue(k)
  {}

  /** `getRequiredTypes()`. */
  function RequiredTypes(): (r: seq<Kind>)
    ensures r == [NAME, PHONE, EMAIL]
  {
    RequiredKinds();
    FilterOfCatalogue(IsRequired, [NAME, PHONE, EMAIL]);
    Filter(Values, IsRequired)
  }

  /** `getOptionalTypes()`. */
  function OptionalTypes(): (r: seq<Kind>)
    ensures r == [YEAR_OF_STUDY, ADDRESS, ROOM, FLOOR, GENDER, CCA_POINT_RECORDS, DEMERIT_REORDS, TAG]
  {
    OptionalKinds();
    FilterOfCatalogue(k => !IsRequired(k), [YEAR_OF_STUDY, ADDRESS, ROOM, FLOOR, GENDER, CCA_POINT_RECORDS, DEMERIT_REORDS, TAG]);
    Filter(Values, k => !IsRequired(k))
  }

  /** `getSingleValueTypes()`. */
  function SingleValueTypes(): (r: seq<Kind>)
    ensures r == [NAME, PHONE, EMAIL, YEAR_OF_STUDY, ADDRESS, ROOM, FLOOR, GENDER]
  {
    SingleValueKinds();
    FilterOfCatalogue(k => !IsMultiValue(k), [NAME, PHONE, EMAIL, YEAR_OF_STUDY, ADDRESS, ROOM, FLOOR, GENDER]);
    Filter(Values, k => !IsMultiValue(k))
  }

  /** `getMultiValueTypes()`. */
  function MultiValueTypes(): (r: seq<Kind>)
    ensures r == [CCA_POINT_RECORDS, DEMERIT_REORDS, TAG]
  {
    MultiValueKinds();
    FilterOfCatalogue(IsMultiValue, [CCA_POINT_RECORDS, DEMERIT_REORDS, TAG]);
    Filter(Values, IsMultiValue)
  }

  /** `getAllPrefixes()`: every kind's prefix once, in declaration order. */
  function AllPrefixes(): (r: seq<string>)
    ensures |r| == |Values| && forall i :: 0 <= i < |r| ==> r[i] == Prefix(Values[i])
    ensures |r| == 11
    ensures forall k: Kind :: Prefix(k) in r
    ensures forall i, j :: 0 <= i < j < |r| ==> r[i] != r[j]
  {
    var r := seq(|Values|, i requires 0 <= i < |Values| => Prefix(Values[i]));
    PrefixListFacts(r);
    r
  }

  /** The prefixes of the catalogue, position by position, list every prefix exactly once. */
  lemma PrefixListFacts(r: seq<string>)
    requires |r| == |Values| && forall i :: 0 <= i < |r| ==> r[i] == Prefix(Values[i])
    ensures |r| == 11
    ensures forall k: Kind :: Prefix(k) in r
    ensures forall i, j :: 0 <= i < j < |r| ==> r[i] != r[j]
  {
    AllKindsListed();
    forall k: Kind ensures Prefix(k) in r {
      KindAtOrdinal(k);
      assert r[Ordinal(k)] == Prefix(k);
    }
    forall i, j | 0 <= i < j < |r| ensures r[i] != r[j] {
      PrefixesDistinct(Values[i], Values[j]);
    }
  }

  /** The first kind of `ks` whose prefix is exactly `p`. */
  function FindPrefix(ks: seq<Kind>, p: string): (r: Option<Kind>)
    ensures r.Some? ==> r.value in ks && Prefix(r.value) == p
    ensures r.None? ==> forall k :: k in ks ==> Prefix(k) != p
  {
    if |ks| == 0 then None
    else if Prefix(ks[0]) == p then Some(ks[0])
    else FindPrefix(ks[1..], p)
  }

  /** `fromPrefix(p)`: an exact, case-sensitive match against the table. */
  function FromPrefix(p: string): (r: Option<Kind>)
    ensures r.Some? ==> Prefix(r.value) == p
    ensures r.None? <==> forall k: Kind :: Prefix(k) != p
  {
    AllKindsListed();
    FindPrefix(Values, p)
  }

  /** `values()` lists every kind once, at its ordinal. */
  lemma AllKindsListed()
    ensures |Values| == 11 && Ascending(Values)
    ensures forall i :: 0 <= i < |Values| ==> Ordinal(Values[i]) == i
    ensures forall k: Kind :: k in Values
  {
    forall k: Kind ensures k in Values {
      KindAtOrdinal(k);
    }
  }

  /** A kind sits in the catalogue at its ordinal. */
  lemma KindAtOrdinal(k: Kind)
    ensures Ordinal(k) < |Values| && Values[Ordinal(k)] == k
  {
  }

  /** No two kinds share a prefix. */
  lemma PrefixesDistinct(a: Kind, b: Kind)
    ensures Prefix(a) == Prefix(b) <==> a == b
  {
    if a != b {
      assert Prefix(a)[0] != Prefix(b)[0] || |Prefix(a)| != |Prefix(b)|;
    }
  }

  /** Looking up a kind's own prefix finds that kind. */
  lemma FromPrefixOfPrefix(k: Kind)
    ensures FromPrefix(Prefix(k)) == Some(k)
  {
    AllKindsListed();
    var r := FromPrefix(Prefix(k));
    PrefixesDistinct(r.value, k);
  }

  /** Prefixes are matched exactly: an upper-cased or unslashed prefix finds nothing. */
  lemma FromPrefixIsExact()
    ensures FromPrefix("N/") == None && FromPrefix("n") == None && FromPrefix("") == None
  {
    forall k: Kind ensures Prefix(k) != "N/" && Prefix(k) != "n" && Prefix(k) != "" {
      PrefixShape(k);
    }
  }

  /** Every prefix is a lower-case word followed by a slash. */
  lemma PrefixShape(k: Kind)
    ensures |Prefix(k)| >= 2 && Prefix(k)[|Prefix(k)| - 1] == '/' && 'a' <= Prefix(k)[0] <= 'z'
  {
  }

  /** `getAllPrefixes()` holds eleven distinct prefixes. */
  lemma AllPrefixesDistinct()
    ensures |AllPrefixes()| == 11
    ensures forall i, j :: 0 <= i < j < |AllPrefixes()| ==> AllPrefixes()[i] != AllPrefixes()[j]
  {
    AllKindsListed();
    forall i, j | 0 <= i < j < |AllPrefixes()|
      ensures AllPrefixes()[i] != AllPrefixes()[j]
    {
      PrefixesDistinct(Values[i], Values[j]);
    }
  }

  /** The required and optional lists split the catalogue, and so do the single and multi
      lists; each list keeps declaration order. */
  lemma ListsPartitionCatalogue(k: Kind)
    ensures k in RequiredTypes() <==> IsRequired(k)
    ensures k in OptionalTypes() <==> !IsRequired(k)
    ensures |RequiredTypes()| + |OptionalTypes()| == |Values|
    ensures Ascending(RequiredTypes()) && Ascending(OptionalTypes())
  {
    AllKindsListed();
    FilterSplits(Values, IsRequired);
  }

  /** Likewise for the single-value and multi-value lists. */
  lemma ValueListsPartitionCatalogue(k: Kind)
    ensures k in SingleValueTypes() <==> !IsMultiValue(k)
    ensures k in MultiValueTypes() <==> IsMultiValue(k)
    ensures |SingleValueTypes()| + |MultiValueTypes()| == |Values|
    ensures Ascending(SingleValueTypes()) && Ascending(MultiValueTypes())
  {
    AllKindsListed();
    FilterSplits(Values, IsMultiValue);
  }

  /** Every single-value kind precedes every multi-value kind in the catalogue. */
  lemma SinglesPrecedeMultis(a: Kind, b: Kind)
    requires !IsMultiValue(a) && IsMultiValue(b)
    ensures Ordinal(a) < Ordinal(b)
  {
  }

  /** The catalogue is the single-value kinds followed by the multi-value kinds. */
  lemma CatalogueSplits()
    ensures Values == SingleValueTypes() + MultiValueTypes()
  {
    ConcatenatedLists(SingleValueTypes(), MultiValueTypes());
  }

  lemma ConcatenatedLists(s: seq<Kind>, m: seq<Kind>)
    requires s == [NAME, PHONE, EMAIL, YEAR_OF_STUDY, ADDRESS, ROOM, FLOOR, GENDER]
    requires m == [CCA_POINT_RECORDS, DEMERIT_REORDS, TAG]
    ensures Values == s + m
  {
  }

  /** For every kind, a value its validator accepts is built by its factory, as an
      instance of the kind's class. */
  lemma CreateAcceptsValid(rules: Rules, k: Kind, s: string)
    requires IsValid(rules, k, s)
    ensures Create(rules, k, s).Success?
    ensures ClassOf(Create(rules, k, s).value) == AttributeClassOf(k)
  {
    if k == CCA_POINT_RECORDS {
      CcaPointsCreateAcceptsValid(rules, k, s);
    } else if k == DEMERIT_REORDS {
      DemeritCreateAcceptsValid(rules, k, s);
    } else {
      PlainCreateAcceptsValid(rules, k, s);
    }
  }

  lemma CcaPointsCreateAcceptsValid(rules: Rules, k: Kind, s: string)
    requires k == CCA_POINT_RECORDS && IsValid(rules, k, s)
    ensures Create(rules, k, s).Success?
    ensures ClassOf(Create(rules, k, s).value) == AttributeClassOf(k)
  {
    assert Create(rules, k, s).value.CcaPoints?;
  }

  lemma DemeritCreateAcceptsValid(rules: Rules, k: Kind, s: string)
    requires k == DEMERIT_REORDS && IsValid(rules, k, s)
    ensures Create(rules, k, s).Success?
    ensures ClassOf(Create(rules, k, s).value) == AttributeClassOf(k)
  {
    assert Create(rules, k, s).value.Demerit?;
  }

  lemma PlainCreateAcceptsValid(rules: Rules, k: Kind, s: string)
    requires IsValid(rules, k, s) && !IsRecordKind(k)
    ensures Create(rules, k, s).Success?
    ensures ClassOf(Create(rules, k, s).value) == AttributeClassOf(k)
  {
  }

  /** Outside the record kinds the factory is exactly as strict as the validator and
      fails with the kind's message. */
  lemma CreateMatchesValidator(rules: Rules, k: Kind, s: string)
    requires !IsRecordKind(k)
    ensures Create(rules, k, s).Success? <==> IsValid(rules, k, s)
    ensures Create(rules, k, s).Failure? ==>
      Create(rules, k, s).error == IllegalArgument(MessageConstraints(rules, k))
  {
  }

  /** The record factories are laxer than their validators: a blank description is built. */
  lemma RecordFactoryIsLax(rules: Rules, k: Kind)
    requires IsRecordKind(k)
    ensures !IsValid(rules, k, "|2024-01-15 14:30")
    ensures Create(rules, k, "|2024-01-15 14:30").Success?
  {
    if k == CCA_POINT_RECORDS {
      DatedRecord.ConstructorAcceptsBlankDescription(DatedRecord.CcaPointsRecord);
    } else {
      DatedRecord.ConstructorAcceptsBlankDescription(DatedRecord.DemeritRecord);
    }
  }
}
