/** Person: an immutable record of attributes in two maps keyed by kind, one value per
    single-value kind and a list per multi-value kind. Updates build a new Person through
    the constructor, which rejects a list holding two entries a HashSet cannot both keep. */
module Persons {
  import opened Wrappers
  import opened Exceptions
  import opened JavaText
  import opened PersonAttribute
  import opened AttributeTypes

  datatype Person = Person(singles: map<Kind, Attribute>, multis: map<Kind, seq<Attribute>>)

  // ---------------------------------------------------------------- duplicate check

  /** `seen.add(a)` returns false after `e` was added: the hashes agree and `a.equals(e)`. */
  predicate Clash(e: Attribute, a: Attribute) {
    HashCode(e) == HashCode(a) && Equals(a, e)
  }

  /** Some entry before position `i` stops `xs[i]` from entering the set. */
  predicate ClashesEarlier(xs: seq<Attribute>, i: int)
    requires 0 <= i < |xs|
  {
    exists j :: 0 <= j < i && Clash(xs[j], xs[i])
  }

  /** Two entries of the list that a HashSet cannot both hold. */
  predicate HasDuplicate(xs: seq<Attribute>) {
    exists j, i :: 0 <= j < i < |xs| && Clash(xs[j], xs[i])
  }

  /** The position of the first entry the set refuses, scanning from `i`. */
  function FirstClash(xs: seq<Attribute>, i: nat): (r: Option<nat>)
    requires i <= |xs|
    ensures r.Some? ==> i <= r.value < |xs| && ClashesEarlier(xs, r.value)
    ensures forall m :: i <= m < |xs| && (r.None? || m < r.value) ==> !ClashesEarlier(xs, m)
    decreases |xs| - i
  {
    if i == |xs| then None
    else if ClashesEarlier(xs, i) then Some(i)
    else FirstClash(xs, i + 1)
  }

  /** A list without such a pair has no refused entry, and the other way round. */
  lemma FirstClashFindsDuplicate(xs: seq<Attribute>)
    ensures FirstClash(xs, 0).Some? <==> HasDuplicate(xs)
  {
    if HasDuplicate(xs) {
      var j, i :| 0 <= j < i < |xs| && Clash(xs[j], xs[i]);
      assert ClashesEarlier(xs, i);
    }
  }

  function DuplicateMessage(k: Kind, a: Attribute): string {
    "Duplicate " + DisplayName(k) + " found: " + a.value
  }

  /** The outcome of `validateNoDuplicates(type, attributes)`. */
  function CheckNoDuplicates(k: Kind, xs: seq<Attribute>): (r: Result<(), Exception>)
    ensures r.Success? <==> !HasDuplicate(xs)
    ensures r.Failure? ==> FirstClash(xs, 0).Some?
                           && r.error == IllegalArgument(DuplicateMessage(k, xs[FirstClash(xs, 0).value]))
  {
    FirstClashFindsDuplicate(xs);
    match FirstClash(xs, 0)
    case None => Success(())
    case Some(i) => Failure(IllegalArgument(DuplicateMessage(k, xs[i])))
  }

  /** The loop of `validateNoDuplicates` over a growing HashSet: the position of the first
      entry `add` refuses, or nothing when every entry enters the set. */
  method FirstRefused(xs: seq<Attribute>) returns (found: Option<nat>)
    ensures found == FirstClash(xs, 0)
    ensures found.Some? ==> found.value < |xs| && ClashesEarlier(xs, found.value)
    ensures found.None? <==> !HasDuplicate(xs)
  {
    var i := 0;
    while i < |xs|
      invariant 0 <= i <= |xs|
      invariant forall m :: 0 <= m < i ==> !ClashesEarlier(xs, m)
    {
      // The set holds `xs[..i]`, so `add` refuses `xs[i]` exactly when an earlier entry clashes.
      if ClashesEarlier(xs, i) {
        FirstClashIs(xs, i);
        return Some(i);
      }
      NoClashExtends(xs, i);
      i := i + 1;
    }
    FirstClashIs(xs, i);
    return None;
  }

  /** `validateNoDuplicates`: the first refused entry is reported with its kind's name. */
  method ValidateNoDuplicates(k: Kind, xs: seq<Attribute>) returns (r: Result<(), Exception>)
    ensures r.Success? <==> !HasDuplicate(xs)
    ensures r.Failure? ==> FirstClash(xs, 0).Some?
                           && r.error == IllegalArgument(DuplicateMessage(k, xs[FirstClash(xs, 0).value]))
  {
    var found := FirstRefused(xs);
    match found
    case None => r := Success(());
    case Some(i) => r := Failure(IllegalArgument(DuplicateMessage(k, xs[i])));
  }

  /** An entry the set accepts extends the run of accepted entries. */
  lemma NoClashExtends(xs: seq<Attribute>, i: nat)
    requires i < |xs| && !ClashesEarlier(xs, i)
    requires forall m :: 0 <= m < i ==> !ClashesEarlier(xs, m)
    ensures forall m :: 0 <= m < i + 1 ==> !ClashesEarlier(xs, m)
  {
    forall m | 0 <= m < i + 1
      ensures !ClashesEarlier(xs, m)
    {
      if m == i {
        assert !ClashesEarlier(xs, i);
      } else {
        assert m < i;
      }
    }
  }

  /** The scan stops at the first refused entry, or finds none when no entry is refused. */
  lemma FirstClashIs(xs: seq<Attribute>, i: nat)
    requires i <= |xs| && forall m :: 0 <= m < i ==> !ClashesEarlier(xs, m)
    requires i < |xs| ==> ClashesEarlier(xs, i)
    ensures FirstClash(xs, 0) == if i < |xs| then Some(i) else None
    ensures HasDuplicate(xs) <==> i < |xs|
  {
    FirstClashFindsDuplicate(xs);
  }

  // ---------------------------------------------------------------- construction

  /** The invariant the constructor establishes: no list holds a refused pair. */
  predicate NoDuplicates(multis: map<Kind, seq<Attribute>>) {
    forall k :: k in multis ==> !HasDuplicate(multis[k])
  }

  predicate Valid(p: Person) {
    NoDuplicates(p.multis)
  }

  /** Position `i` of `ks` is the first whose list holds a duplicate. */
  predicate FirstDuplicateAt(ks: seq<Kind>, multis: map<Kind, seq<Attribute>>, i: int) {
    && 0 <= i < |ks| && ks[i] in multis && HasDuplicate(multis[ks[i]])
    && forall m :: 0 <= m < i && ks[m] in multis ==> !HasDuplicate(multis[ks[m]])
  }

  /** The duplicate checks of the constructor's loop, over the kinds `ks` in order. */
  function CheckMultis(ks: seq<Kind>, multis: map<Kind, seq<Attribute>>): (r: Result<(), Exception>)
    ensures r.Success? <==> forall i :: 0 <= i < |ks| && ks[i] in multis ==> !HasDuplicate(multis[ks[i]])
    ensures r.Failure? ==> exists i :: FirstDuplicateAt(ks, multis, i) && r == CheckNoDuplicates(ks[i], multis[ks[i]])
  {
    if |ks| == 0 then Success(())
    else
      var first := if ks[0] in multis then CheckNoDuplicates(ks[0], multis[ks[0]]) else Success(());
      if first.Failure? then first
      else
        var rest := CheckMultis(ks[1..], multis);
        assert forall i :: 1 <= i < |ks| ==> ks[i] == ks[1..][i - 1];
        assert rest.Failure? ==> exists i :: FirstDuplicateAt(ks, multis, i) && rest == CheckNoDuplicates(ks[i], multis[ks[i]]) by {
          if rest.Failure? {
            var j :| FirstDuplicateAt(ks[1..], multis, j) && rest == CheckNoDuplicates(ks[1..][j], multis[ks[1..][j]]);
            forall m | 0 <= m < j + 1 && ks[m] in multis ensures !HasDuplicate(multis[ks[m]]) {
              if m > 0 { assert ks[m] == ks[1..][m - 1]; }
            }
            assert ks[j + 1] == ks[1..][j];
          }
        }
        rest
  }

  /** `k` is the first kind, in declaration order, whose list holds a duplicate. */
  predicate FirstDuplicatedKind(multis: map<Kind, seq<Attribute>>, k: Kind) {
    && k in multis && HasDuplicate(multis[k])
    && forall k' :: k' in multis && Ordinal(k') < Ordinal(k) ==> !HasDuplicate(multis[k'])
  }

  /** `new Person(singleAttributes, multiAttributes)`: the entries are kept as given; the
      only check is for duplicates, visited in declaration order. The required-field check
      is commented out, and nothing checks that an attribute's class fits its kind. */
  function New(singles: map<Kind, Attribute>, multis: map<Kind, seq<Attribute>>): (r: Result<Person, Exception>)
    ensures r.Success? <==> NoDuplicates(multis)
    ensures r.Success? ==> r.value == Person(singles, multis) && Valid(r.value)
    ensures r.Failure? ==> exists k :: && k in multis && HasDuplicate(multis[k])
                                       && r.error == CheckNoDuplicates(k, multis[k]).error
                                       && FirstDuplicatedKind(multis, k)
  {
    AllKindsListed();
    var check := CheckMultis(Values, multis);
    assert check.Success? <==> NoDuplicates(multis) by {
      if check.Success? {
        forall k | k in multis ensures !HasDuplicate(multis[k]) {
          KindAtOrdinal(k);
        }
      }
    }
    if check.Failure? then
      assert exists k :: && k in multis && HasDuplicate(multis[k])
                         && check.error == CheckNoDuplicates(k, multis[k]).error
                         && FirstDuplicatedKind(multis, k) by {
        var i :| FirstDuplicateAt(Values, multis, i) && check == CheckNoDuplicates(Values[i], multis[Values[i]]);
        var k := Values[i];
        forall k' | k' in multis && Ordinal(k') < Ordinal(k) ensures !HasDuplicate(multis[k']) {
          KindAtOrdinal(k');
        }
      }
      Failure(check.error)
    else Success(Person(singles, multis))
  }

  /** No field is required and no class is checked: a Person without a name, or with a
      Tag stored as its name, is built. */
  lemma NoRequiredFieldCheck(tag: string)
    ensures New(map[], map[]) == Success(Person(map[], map[]))
    ensures New(map[NAME := Tag(tag)], map[]) == Success(Person(map[NAME := Tag(tag)], map[]))
  {
  }

  /** A list with two equal tags is refused, with the message naming the second one. */
  lemma DuplicateTagsRejected(singles: map<Kind, Attribute>, t: string)
    ensures New(singles, map[TAG := [Tag(t), Tag(t)]]) ==
            Failure(IllegalArgument("Duplicate Tag found: " + t))
  {
    var xs := [Tag(t), Tag(t)];
    assert HasDuplicate(xs) by {
      assert Clash(xs[0], xs[1]);
    }
    assert FirstClash(xs, 0) == Some(1) by {
      assert !ClashesEarlier(xs, 0);
      assert ClashesEarlier(xs, 1) by { assert Clash(xs[0], xs[1]); }
    }
    OneListChecked(singles, TAG, xs);
    TagDuplicateMessage(t);
  }

  lemma TagDuplicateMessage(t: string)
    ensures DuplicateMessage(TAG, Tag(t)) == "Duplicate Tag found: " + t
  {
    assert DisplayName(TAG) == "Tag";
  }

  /** With a single list, the constructor fails exactly as that list's check does. */
  lemma OneListChecked(singles: map<Kind, Attribute>, k: Kind, xs: seq<Attribute>)
    ensures New(singles, map[k := xs]).Success? <==> !HasDuplicate(xs)
    ensures New(singles, map[k := xs]).Failure? ==>
      New(singles, map[k := xs]).error == CheckNoDuplicates(k, xs).error
  {
    var m := map[k := xs];
    assert k in m && m[k] == xs && m.Keys == {k};
  }

  /** Because Floor hashes its text, two equal floors written differently pass the check. */
  lemma EqualFloorsPassDuplicateCheck()
    ensures New(map[], map[TAG := [Floor("07", 7), Floor("7", 7)]]).Success?
  {
    var xs := [Floor("07", 7), Floor("7", 7)];
    assert StringHash("7") == 55 by { assert "7"[..0] == ""; }
    assert StringHash("07") == 1543 by { assert "07"[..1] == "0"; assert "0"[..0] == ""; }
    assert !HasDuplicate(xs) by {
      forall j, i | 0 <= j < i < |xs| ensures !Clash(xs[j], xs[i]) {
        assert j == 0 && i == 1;
      }
    }
  }

  /** With the corrected hash, the set refuses an entry exactly when `equals` matches it
      with an earlier one: the duplicate check becomes plain equality. */
  lemma CorrectedClashIsEquals(e: Attribute, a: Attribute)
    requires PayloadMatchesValue(e) && PayloadMatchesValue(a)
    ensures (ConsistentHashCode(e) == ConsistentHashCode(a) && Equals(a, e)) <==> Equals(a, e)
  {
    if Equals(a, e) {
      EqualsReflexiveSymmetric(a, e);
      ConsistentHashAgreesWithEquals(e, a);
    }
  }

  // ---------------------------------------------------------------- access

  /** `getAttribute(type)` and `get(type)`. */
  function GetAttribute(p: Person, k: Kind): (r: Option<Attribute>)
    ensures r.Some? <==> k in p.singles
    ensures r.Some? ==> r.value == p.singles[k]
  {
    if k in p.singles then Some(p.singles[k]) else None
  }

  /** `get(type, clazz)`: the attribute, kept only if it is an instance of the class. */
  function GetAs(p: Person, k: Kind, c: AttributeClass): (r: Option<Attribute>)
    ensures r.Some? <==> GetAttribute(p, k).Some? && ClassOf(GetAttribute(p, k).value) == c
    ensures r.Some? ==> r == GetAttribute(p, k)
  {
    match GetAttribute(p, k)
    case Some(a) => if ClassOf(a) == c then Some(a) else None
    case None => None
  }

  /** `getMultiAttribute(type)`: an absent kind reads as the empty list. */
  function GetMulti(p: Person, k: Kind): (r: seq<Attribute>)
    ensures k in p.multis ==> r == p.multis[k]
    ensures k !in p.multis ==> r == []
  {
    if k in p.multis then p.multis[k] else []
  }

  /** The entries of class `c`, in their order: the stream filter, as a plain recursion. */
  function KeepClass(xs: seq<Attribute>, c: AttributeClass): seq<Attribute>
    decreases |xs|
  {
    if |xs| == 0 then []
    else (if ClassOf(xs[0]) == c then [xs[0]] else []) + KeepClass(xs[1..], c)
  }

  lemma {:induction false} KeepClassFacts(xs: seq<Attribute>, c: AttributeClass)
    ensures forall a :: a in KeepClass(xs, c) <==> a in xs && ClassOf(a) == c
    ensures |KeepClass(xs, c)| <= |xs|
    ensures (forall i :: 0 <= i < |xs| ==> ClassOf(xs[i]) == c) ==> KeepClass(xs, c) == xs
    decreases |xs|
  {
    if |xs| > 0 {
      var rest := xs[1..];
      KeepClassFacts(rest, c);
      assert xs == [xs[0]] + rest;
      assert forall a :: a in xs <==> a == xs[0] || a in rest;
      if forall i :: 0 <= i < |xs| ==> ClassOf(xs[i]) == c {
        assert forall i :: 0 <= i < |rest| ==> rest[i] == xs[i + 1];
      }
    }
  }

  lemma {:induction false} KeepClassAppend(xs: seq<Attribute>, ys: seq<Attribute>, c: AttributeClass)
    ensures KeepClass(xs + ys, c) == KeepClass(xs, c) + KeepClass(ys, c)
    decreases |xs|
  {
    if |xs| == 0 {
      assert xs + ys == ys;
    } else {
      var zs := xs + ys;
      assert zs[0] == xs[0] && zs[1..] == xs[1..] + ys;
      KeepClassAppend(xs[1..], ys, c);
      var head: seq<Attribute> := if ClassOf(xs[0]) == c then [xs[0]] else [];
      assert head + (KeepClass(xs[1..], c) + KeepClass(ys, c)) == (head + KeepClass(xs[1..], c)) + KeepClass(ys, c);
    }
  }

  /** `filter(clazz::isInstance)`: the entries of class `c`, in their order. */
  function OfClass(xs: seq<Attribute>, c: AttributeClass): (r: seq<Attribute>)
    ensures forall a :: a in r <==> a in xs && ClassOf(a) == c
    ensures |r| <= |xs|
    ensures (forall i :: 0 <= i < |xs| ==> ClassOf(xs[i]) == c) ==> r == xs
  {
    KeepClassFacts(xs, c);
    KeepClass(xs, c)
  }

  /** The filter keeps the order: filtering two lists one after the other is filtering
      their concatenation. */
  lemma OfClassAppend(xs: seq<Attribute>, ys: seq<Attribute>, c: AttributeClass)
    ensures OfClass(xs + ys, c) == OfClass(xs, c) + OfClass(ys, c)
  {
    KeepClassAppend(xs, ys, c);
  }

  /** Filtering a list with one more entry in front. */
  lemma OfClassCons(x: Attribute, xs: seq<Attribute>, c: AttributeClass)
    ensures OfClass([x] + xs, c) == (if ClassOf(x) == c then [x] else []) + OfClass(xs, c)
  {
    assert ([x] + xs)[0] == x && ([x] + xs)[1..] == xs;
  }

  /** A single entry is kept exactly when it has the class. */
  lemma OfClassOfOne(a: Attribute, c: AttributeClass)
    ensures OfClass([a], c) == if ClassOf(a) == c then [a] else []
  {
    assert [a][1..] == [];
    assert KeepClass([a], c) == (if ClassOf(a) == c then [a] else []) + KeepClass([], c);
  }

  /** The filter keeps every entry of the class as often as the list holds it, and no
      entry of another class. */
  lemma {:induction false} OfClassCounts(xs: seq<Attribute>, c: AttributeClass)
    ensures forall a :: multiset(OfClass(xs, c))[a] == if ClassOf(a) == c then multiset(xs)[a] else 0
    decreases |xs|
  {
    if |xs| > 0 {
      OfClassCounts(xs[1..], c);
      assert xs == [xs[0]] + xs[1..];
      var head: seq<Attribute> := if ClassOf(xs[0]) == c then [xs[0]] else [];
      assert OfClass(xs, c) == head + OfClass(xs[1..], c);
      assert multiset(OfClass(xs, c)) == multiset(head) + multiset(OfClass(xs[1..], c));
      assert multiset(xs) == multiset([xs[0]]) + multiset(xs[1..]);
    }
  }

  /** `getMultiAttribute(type, clazz)`. */
  function GetMultiAs(p: Person, k: Kind, c: AttributeClass): (r: seq<Attribute>)
    ensures forall a :: a in r <==> a in GetMulti(p, k) && ClassOf(a) == c
  {
    OfClass(GetMulti(p, k), c)
  }

  /** The stream filter of `getMultiAttribute(type, clazz)` keeps order and repeats: each
      entry of the class is kept as often as the list holds it, and the entries around any
      position are filtered around it. */
  lemma GetMultiAsKeepsOrder(p: Person, k: Kind, c: AttributeClass)
    ensures forall a :: multiset(GetMultiAs(p, k, c))[a] == if ClassOf(a) == c then multiset(GetMulti(p, k))[a] else 0
    ensures forall i :: 0 <= i < |GetMulti(p, k)| ==>
              GetMultiAs(p, k, c) ==
                OfClass(GetMulti(p, k)[..i], c) + OfClass([GetMulti(p, k)[i]], c) + OfClass(GetMulti(p, k)[i + 1..], c)
  {
    var xs := GetMulti(p, k);
    OfClassCounts(xs, c);
    forall i | 0 <= i < |xs|
      ensures OfClass(xs, c) == OfClass(xs[..i], c) + OfClass([xs[i]], c) + OfClass(xs[i + 1..], c)
    {
      OfClassSplitAt(xs, i, c);
    }
  }

  /** Filtering around one position: the part before it, the entry, the part after it. */
  lemma OfClassSplitAt(xs: seq<Attribute>, i: nat, c: AttributeClass)
    requires i < |xs|
    ensures OfClass(xs, c) == OfClass(xs[..i], c) + OfClass([xs[i]], c) + OfClass(xs[i + 1..], c)
  {
    var front, entry, back := xs[..i], [xs[i]], xs[i + 1..];
    assert xs == front + (entry + back);
    OfClassAppend(front, entry + back, c);
    OfClassAppend(entry, back, c);
    var f, e, b := OfClass(front, c), OfClass(entry, c), OfClass(back, c);
    assert f + (e + b) == f + e + b;
  }

  /** `hasAttribute(type)`: a single value, or a non-empty list. */
  predicate HasAttribute(p: Person, k: Kind)
    ensures HasAttribute(p, k) <==> GetAttribute(p, k).Some? || |GetMulti(p, k)| > 0
  {
    k in p.singles || (k in p.multis && |p.multis[k]| > 0)
  }

  /** The accessors read back what the constructor stored: a kind's single value, the
      value only under its own class, and a kind's list or the empty list. */
  lemma AccessorsReadConstructedMaps(singles: map<Kind, Attribute>, multis: map<Kind, seq<Attribute>>, k: Kind)
    requires New(singles, multis).Success?
    ensures var p := New(singles, multis).value;
      && (GetAttribute(p, k).Some? <==> k in singles)
      && (k in singles ==> GetAttribute(p, k) == Some(singles[k]))
      && (forall c :: GetAs(p, k, c).Some? <==> k in singles && ClassOf(singles[k]) == c)
      && GetMulti(p, k) == (if k in multis then multis[k] else [])
      && (HasAttribute(p, k) <==> k in singles || (k in multis && multis[k] != []))
  {
  }

  // ---------------------------------------------------------------- update

  /** `set(type, attribute)`: a new Person with that single value replaced. */
  function Set(p: Person, k: Kind, a: Attribute): (r: Person)
    requires Valid(p)
    ensures Valid(r)
    ensures GetAttribute(r, k) == Some(a)
    ensures forall k' :: k' != k ==> GetAttribute(r, k') == GetAttribute(p, k')
    ensures r.multis == p.multis
  {
    New(p.singles[k := a], p.multis).value
  }

  /** Setting the same value twice is setting it once. */
  lemma SetIdempotent(p: Person, k: Kind, a: Attribute)
    requires Valid(p)
    ensures Set(Set(p, k, a), k, a) == Set(p, k, a)
  {
  }

  /** `setMulti(type, attributes)`: a new Person with that list replaced, refused when the
      new list holds a duplicate. */
  function SetMulti(p: Person, k: Kind, xs: seq<Attribute>): (r: Result<Person, Exception>)
    requires Valid(p)
    ensures r.Success? <==> !HasDuplicate(xs)
    ensures r.Failure? ==> r.error == CheckNoDuplicates(k, xs).error
    ensures r.Success? ==> && GetMulti(r.value, k) == xs
                           && r.value.singles == p.singles
                           && forall k' :: k' != k ==>
                                (k' in r.value.multis <==> k' in p.multis) && GetMulti(r.value, k') == GetMulti(p, k')
  {
    var multis := p.multis[k := xs];
    assert NoDuplicates(multis) <==> !HasDuplicate(xs) by {
      assert k in multis && multis[k] == xs;
      assert forall k' :: k' in multis && k' != k ==> k' in p.multis && multis[k'] == p.multis[k'];
    }
    New(p.singles, multis)
  }

  // ---------------------------------------------------------------- identity and equality

  /** `Optional.equals`: both empty, or both present and equal by the attribute's `equals`. */
  predicate OptionEquals(x: Option<Attribute>, y: Option<Attribute>) {
    match (x, y)
    case (None, None) => true
    case (Some(a), Some(b)) => Equals(a, b)
    case _ => false
  }

  /** `isSamePerson`: the weak identity, on the NAME entry alone. */
  predicate IsSamePerson(p: Person, q: Person) {
    OptionEquals(GetAttribute(p, NAME), GetAttribute(q, NAME))
  }

  /** `Map.equals` over single values: the same keys, and equal values under each. */
  predicate SinglesEqual(m: map<Kind, Attribute>, n: map<Kind, Attribute>) {
    m.Keys == n.Keys && forall k :: k in m && k in n ==> Equals(m[k], n[k])
  }

  /** `List.equals`: the same length and equal entries position by position. */
  predicate ListEquals(xs: seq<Attribute>, ys: seq<Attribute>) {
    |xs| == |ys| && forall i :: 0 <= i < |xs| ==> Equals(xs[i], ys[i])
  }

  /** `Map.equals` over lists. */
  predicate MultisEqual(m: map<Kind, seq<Attribute>>, n: map<Kind, seq<Attribute>>) {
    m.Keys == n.Keys && forall k :: k in m && k in n ==> ListEquals(m[k], n[k])
  }

  /** `Person.equals`. */
  predicate PersonEquals(p: Person, q: Person) {
    SinglesEqual(p.singles, q.singles) && MultisEqual(p.multis, q.multis)
  }

  /** `isSamePerson` holds exactly when both persons lack a NAME, or both have one and the
      two are equal. */
  lemma SamePersonIffNamesMatch(p: Person, q: Person)
    ensures IsSamePerson(p, q) <==>
      || (NAME !in p.singles && NAME !in q.singles)
      || (NAME in p.singles && NAME in q.singles && Equals(p.singles[NAME], q.singles[NAME]))
  {
  }

  /** `isSamePerson` is reflexive and symmetric. */
  lemma SamePersonReflexiveSymmetric(p: Person, q: Person)
    ensures IsSamePerson(p, p)
    ensures IsSamePerson(p, q) <==> IsSamePerson(q, p)
  {
    if NAME in p.singles {
      EqualsReflexiveSymmetric(p.singles[NAME], p.singles[NAME]);
      if NAME in q.singles {
        EqualsReflexiveSymmetric(p.singles[NAME], q.singles[NAME]);
      }
    }
  }

  /** Equal persons are the same person. */
  lemma EqualPersonsAreSamePerson(p: Person, q: Person)
    requires PersonEquals(p, q)
    ensures IsSamePerson(p, q)
  {
  }

  /** Person equality is reflexive and symmetric... */
  lemma PersonEqualsReflexiveSymmetric(p: Person, q: Person)
    ensures PersonEquals(p, p)
    ensures PersonEquals(p, q) ==> PersonEquals(q, p)
  {
    forall k | k in p.singles ensures Equals(p.singles[k], p.singles[k]) {
      EqualsReflexiveSymmetric(p.singles[k], p.singles[k]);
    }
    forall k, i | k in p.multis && 0 <= i < |p.multis[k]|
      ensures Equals(p.multis[k][i], p.multis[k][i])
    {
      EqualsReflexiveSymmetric(p.multis[k][i], p.multis[k][i]);
    }
    if PersonEquals(p, q) {
      forall k | k in q.singles ensures Equals(q.singles[k], p.singles[k]) {
        EqualsReflexiveSymmetric(p.singles[k], q.singles[k]);
      }
      forall k, i | k in q.multis && 0 <= i < |q.multis[k]|
        ensures Equals(q.multis[k][i], p.multis[k][i])
      {
        assert ListEquals(p.multis[k], q.multis[k]);
        EqualsReflexiveSymmetric(p.multis[k][i], q.multis[k][i]);
      }
    }
  }

  /** ...and transitive. */
  lemma PersonEqualsTransitive(p: Person, q: Person, r: Person)
    requires PersonEquals(p, q) && PersonEquals(q, r)
    ensures PersonEquals(p, r)
  {
    forall k | k in p.singles ensures Equals(p.singles[k], r.singles[k]) {
      EqualsTransitive(p.singles[k], q.singles[k], r.singles[k]);
    }
    forall k, i | k in p.multis && 0 <= i < |p.multis[k]|
      ensures Equals(p.multis[k][i], r.multis[k][i])
    {
      assert ListEquals(p.multis[k], q.multis[k]) && ListEquals(q.multis[k], r.multis[k]);
      EqualsTransitive(p.multis[k][i], q.multis[k][i], r.multis[k][i]);
    }
  }

  /** An empty TAG list and a missing TAG key read the same through every accessor, yet
      the two persons are not equal. */
  lemma EmptyTagListIsNotMissing(singles: map<Kind, Attribute>)
    ensures forall k :: GetMulti(Person(singles, map[TAG := []]), k) == GetMulti(Person(singles, map[]), k)
    ensures forall k :: HasAttribute(Person(singles, map[TAG := []]), k) == HasAttribute(Person(singles, map[]), k)
    ensures !PersonEquals(Person(singles, map[TAG := []]), Person(singles, map[]))
  {
    var withTag: map<Kind, seq<Attribute>> := map[TAG := []];
    assert TAG in withTag.Keys;
  }

  /** Lists are compared in order: swapping two unequal entries gives an unequal person. */
  lemma ListOrderMatters(singles: map<Kind, Attribute>, a: Attribute, b: Attribute)
    requires !Equals(a, b)
    ensures !PersonEquals(Person(singles, map[TAG := [a, b]]), Person(singles, map[TAG := [b, a]]))
  {
    var m: map<Kind, seq<Attribute>> := map[TAG := [a, b]];
    var n: map<Kind, seq<Attribute>> := map[TAG := [b, a]];
    assert TAG in m && TAG in n && m[TAG] == [a, b] && n[TAG] == [b, a];
    assert !ListEquals([a, b], [b, a]) by {
      assert [a, b][0] == a && [b, a][0] == b;
    }
  }

  // ---------------------------------------------------------------- display

  /** The texts of a list's entries. */
  function ValueTexts(xs: seq<Attribute>): (r: seq<string>)
    ensures |r| == |xs| && forall i :: 0 <= i < |xs| ==> r[i] == xs[i].value
  {
    seq(|xs|, i requires 0 <= i < |xs| => xs[i].value)
  }

  /** True when `toDisplayString` writes a line for the kind: a single-value kind with a
      value, or a multi-value kind with a non-empty list. */
  predicate Shown(p: Person, k: Kind) {
    if IsMultiValue(k) then |GetMulti(p, k)| > 0 else k in p.singles
  }

  /** The line written for a kind: its display name, a colon and the value, or the values
      joined by commas; nothing for a kind that is not shown. */
  function DisplayLine(p: Person, k: Kind): (r: string)
    ensures !Shown(p, k) ==> r == ""
    ensures Shown(p, k) ==> |r| > |DisplayName(k)| && r[..|DisplayName(k)|] == DisplayName(k)
    ensures Shown(p, k) && !IsMultiValue(k) ==> r == DisplayName(k) + ": " + p.singles[k].value + "\n"
    ensures Shown(p, k) && IsMultiValue(k) ==>
      r == DisplayName(k) + ": " + Join(", ", ValueTexts(GetMulti(p, k))) + "\n"
  {
    if !Shown(p, k) then ""
    else if IsMultiValue(k) then DisplayName(k) + ": " + Join(", ", ValueTexts(GetMulti(p, k))) + "\n"
    else DisplayName(k) + ": " + p.singles[k].value + "\n"
  }

  /** The lines for the kinds `ks`, in that order. */
  function Lines(p: Person, ks: seq<Kind>): string {
    if |ks| == 0 then "" else DisplayLine(p, ks[0]) + Lines(p, ks[1..])
  }

  /** `toDisplayString()`: the single-value kinds, then the multi-value kinds, each in
      declaration order, and the whole text trimmed. */
  function ToDisplayString(p: Person): string {
    Trim(Lines(p, SingleValueTypes()) + Lines(p, MultiValueTypes()))
  }

  /** The kinds shown for `p`, in declaration order. */
  function ShownKinds(p: Person): (r: seq<Kind>)
    ensures forall k :: k in r <==> Shown(p, k)
    ensures Ascending(r)
  {
    AllKindsListed();
    Filter(Values, ShownIn(p))
  }

  /** `Shown` for a fixed person, as the filter's argument. */
  function ShownIn(p: Person): Kind -> bool {
    k => Shown(p, k)
  }

  lemma {:induction false} LinesAppend(p: Person, a: seq<Kind>, b: seq<Kind>)
    ensures Lines(p, a + b) == Lines(p, a) + Lines(p, b)
    decreases |a|
  {
    if |a| > 0 {
      assert (a + b)[0] == a[0] && (a + b)[1..] == a[1..] + b;
      LinesAppend(p, a[1..], b);
    } else {
      assert a + b == b;
    }
  }

  lemma {:induction false} LinesSkipHidden(p: Person, ks: seq<Kind>)
    ensures Lines(p, Filter(ks, ShownIn(p))) == Lines(p, ks)
    decreases |ks|
  {
    if |ks| > 0 {
      LinesSkipHidden(p, ks[1..]);
    }
  }

  /** The display lists exactly the shown kinds, in declaration order: the singles come
      first in the catalogue, so "singles, then multis" is catalogue order. */
  lemma DisplayFollowsCatalogue(p: Person)
    ensures ToDisplayString(p) == Trim(Lines(p, ShownKinds(p)))
  {
    CatalogueSplits();
    LinesAppend(p, SingleValueTypes(), MultiValueTypes());
    LinesSkipHidden(p, Values);
  }

  lemma {:induction false} LinesBlankIffNothingShown(p: Person, ks: seq<Kind>)
    ensures AllTrimmable(Lines(p, ks)) <==> forall i :: 0 <= i < |ks| ==> !Shown(p, ks[i])
    decreases |ks|
  {
    if |ks| > 0 {
      LinesBlankIffNothingShown(p, ks[1..]);
      var line := DisplayLine(p, ks[0]);
      var rest := Lines(p, ks[1..]);
      assert forall i :: 1 <= i < |ks| ==> ks[i] == ks[1..][i - 1];
      if Shown(p, ks[0]) {
        assert !IsTrimmable(DisplayName(ks[0])[0]);
        assert (line + rest)[0] == line[0] == DisplayName(ks[0])[0];
      } else {
        assert line + rest == rest;
      }
    }
  }

  /** A list holding exactly the shown kinds has no hidden entry, so it lists nothing
      shown only when it is empty, and it is empty only when nothing is shown. */
  lemma ShownListEmptyIffNothingShown(p: Person, ks: seq<Kind>)
    requires forall k :: k in ks <==> Shown(p, k)
    ensures (forall i :: 0 <= i < |ks| ==> !Shown(p, ks[i])) <==> forall k :: !Shown(p, k)
  {
    if |ks| > 0 {
      assert ks[0] in ks;
    }
  }

  /** The display is empty exactly when no kind is shown. */
  lemma DisplayEmptyIffNothingShown(p: Person)
    ensures ToDisplayString(p) == "" <==> forall k :: !Shown(p, k)
  {
    DisplayFollowsCatalogue(p);
    var ks := ShownKinds(p);
    LinesBlankIffNothingShown(p, ks);
    TrimEmptyIffBlank(Lines(p, ks));
    ShownListEmptyIffNothingShown(p, ks);
  }
}
