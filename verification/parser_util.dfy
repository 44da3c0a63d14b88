/** ParserUtil: turns the user's text into indices and attributes, trimming first and
    reporting the kind's constraint message as a ParseException on bad input. */
module ParserUtil {
  import opened Wrappers
  import opened Exceptions
  import opened JavaText
  import opened JavaInt
  import opened PersonAttribute
  import opened External
  import opened AttributeTypes
  import TagAttribute

  const MESSAGE_INVALID_INDEX: string := "Index is not a non-zero unsigned integer."

  /** A position in the displayed list, stored zero-based. */
  datatype Index = Index(zeroBased: nat) {
    function OneBased(): nat {
      zeroBased + 1
    }
  }

  /** `Index.fromOneBased(n)`: a number below one is refused. */
  function FromOneBased(n: int): (r: Result<Index, Exception>)
    ensures r.Success? <==> n >= 1
    ensures r.Success? ==> r.value.OneBased() == n
    ensures r.Failure? ==> r.error == IndexOutOfBounds
  {
    if n < 1 then Failure(IndexOutOfBounds) else Success(Index(n - 1))
  }

  /** `parseIndex(s)`: the trimmed text must pass `isNonZeroUnsignedInteger`; it is then
      parsed and converted. The two later failures are the exceptions `Integer.parseInt`
      and `fromOneBased` would throw should the check let a bad text through. */
  function ParseIndex(rules: Rules, s: string): (r: Result<Index, Exception>)
    ensures !rules.isNonZeroUnsignedInteger(Trim(s)) ==> r == Failure(ParseError(MESSAGE_INVALID_INDEX))
    ensures r.Success? ==> rules.isNonZeroUnsignedInteger(Trim(s))
                           && ParseInt(Trim(s)) == Some(r.value.OneBased() as int)
  {
    var t := Trim(s);
    if !rules.isNonZeroUnsignedInteger(t) then Failure(ParseError(MESSAGE_INVALID_INDEX))
    else
      match ParseInt(t)
      case None => Failure(NumberFormat)
      case Some(n) => FromOneBased(n)
  }

  /** With a check that keeps its promise, an index is refused only with the index
      message, and an accepted one is the parsed number less one. */
  lemma ParseIndexUnderCoherentRules(rules: Rules, s: string)
    requires Coherent(rules)
    ensures ParseIndex(rules, s).Success? <==> rules.isNonZeroUnsignedInteger(Trim(s))
    ensures ParseIndex(rules, s).Failure? ==> ParseIndex(rules, s).error == ParseError(MESSAGE_INVALID_INDEX)
    ensures ParseIndex(rules, s).Success? ==> ParseIndex(rules, s).value.zeroBased == ParseInt(Trim(s)).value - 1
  {
    assert rules.isNonZeroUnsignedInteger(Trim(s)) ==> ParsesInRange(Trim(s), 1, INT_MAX);
  }

  /** `parseAttribute(type, value)`: trim, check the kind's validator, then build. */
  function ParseAttribute(rules: Rules, k: Kind, s: string): (r: Result<Attribute, Exception>)
    ensures r.Success? <==> IsValid(rules, k, Trim(s))
    ensures r.Failure? ==> r.error == ParseError(MessageConstraints(rules, k))
    ensures r.Success? ==> ClassOf(r.value) == AttributeClassOf(k)
    ensures r.Success? ==> r == Create(rules, k, Trim(s))
  {
    var t := Trim(s);
    if !IsValid(rules, k, t) then Failure(ParseError(MessageConstraints(rules, k)))
    else
      CreateAcceptsValid(rules, k, t);
      Create(rules, k, t)
  }

  /** Whitespace around the text never changes the outcome. */
  lemma ParseAttributeIgnoresPadding(rules: Rules, k: Kind, w1: string, s: string, w2: string)
    requires AllTrimmable(w1) && AllTrimmable(w2)
    ensures ParseAttribute(rules, k, w1 + s + w2) == ParseAttribute(rules, k, s)
  {
    TrimIgnoresSurroundingWhitespace(w1, s, w2);
  }

  /** On an already trimmed text, parsing is the factory guarded by the validator. */
  lemma ParseAttributeOfTrimmed(rules: Rules, k: Kind, s: string)
    requires Trim(s) == s && IsValid(rules, k, s)
    ensures ParseAttribute(rules, k, s) == Create(rules, k, s)
  {
  }

  /** `parseAttributes(type, values)`: every value parsed in order; the first bad one
      aborts the whole list. */
  function ParseAttributes(rules: Rules, k: Kind, vs: seq<string>): (r: Result<seq<Attribute>, Exception>)
    ensures r.Success? <==> forall i :: 0 <= i < |vs| ==> IsValid(rules, k, Trim(vs[i]))
    ensures r.Success? ==> && |r.value| == |vs|
                           && forall i :: 0 <= i < |vs| ==> r.value[i] == ParseAttribute(rules, k, vs[i]).value
    ensures r.Failure? ==> && r.error == ParseError(MessageConstraints(rules, k))
                           && exists i :: FirstFailureAt(ParseWith(rules, k), vs, i)
  {
    MapAll(ParseWith(rules, k), vs)
  }

  /** `value -> parseAttribute(type, value)`. */
  function ParseWith(rules: Rules, k: Kind): string -> Result<Attribute, Exception> {
    s => ParseAttribute(rules, k, s)
  }

  /** Every value of a multi-value kind is parsed to an entry of the kind's class, so the
      list the parser returns is what the kind's typed getter reads back. */
  lemma ParsedListHasKindClass(rules: Rules, k: Kind, vs: seq<string>)
    requires ParseAttributes(rules, k, vs).Success?
    ensures forall a :: a in ParseAttributes(rules, k, vs).value ==> ClassOf(a) == AttributeClassOf(k)
  {
    var xs := ParseAttributes(rules, k, vs).value;
    forall a | a in xs ensures ClassOf(a) == AttributeClassOf(k) {
      var i :| 0 <= i < |xs| && xs[i] == a;
    }
  }

  /** `parseTag(tag)`: trim, check, build. */
  function ParseTag(s: string): (r: Result<Attribute, Exception>)
    ensures r.Success? <==> TagAttribute.IsValidTag(Trim(s))
    ensures r.Success? ==> r.value == Tag(Trim(s))
    ensures r.Failure? ==> r.error == ParseError(TagAttribute.MESSAGE_CONSTRAINTS)
  {
    var t := Trim(s);
    if !TagAttribute.IsValidTag(t) then Failure(ParseError(TagAttribute.MESSAGE_CONSTRAINTS))
    else TagAttribute.New(t)
  }

  /** The tag parser is the generic parser at the TAG kind. */
  lemma ParseTagIsParseAttributeAtTag(rules: Rules, s: string)
    ensures ParseTag(s) == ParseAttribute(rules, TAG, s)
  {
  }

  /** `parseTags(tags)`: every text parsed, the tags gathered in a HashSet. Tag equality is
      equality of the texts and the hash is the text's hash, so the HashSet is a set. */
  function ParseTags(vs: seq<string>): (r: Result<set<Attribute>, Exception>)
    ensures r.Success? <==> forall i :: 0 <= i < |vs| ==> TagAttribute.IsValidTag(Trim(vs[i]))
    ensures r.Success? ==> forall a :: a in r.value <==> exists i :: 0 <= i < |vs| && a == Tag(Trim(vs[i]))
    ensures r.Failure? ==> r.error == ParseError(TagAttribute.MESSAGE_CONSTRAINTS)
  {
    if |vs| == 0 then Success({})
    else
      var first :- ParseTag(vs[0]);
      var rest :- ParseTags(vs[1..]);
      assert forall i :: 1 <= i < |vs| ==> vs[i] == vs[1..][i - 1];
      assert forall a :: a in rest ==> exists i :: 0 <= i < |vs| && a == Tag(Trim(vs[i])) by {
        forall a | a in rest ensures exists i :: 0 <= i < |vs| && a == Tag(Trim(vs[i])) {
          var i :| 0 <= i < |vs[1..]| && a == Tag(Trim(vs[1..][i]));
          assert a == Tag(Trim(vs[i + 1]));
        }
      }
      Success({first} + rest)
  }

  /** The same tag written twice, once padded, is one tag in the set... */
  lemma RepeatedTagCollapses(t: string, w: string)
    requires TagAttribute.IsValidTag(t) && AllTrimmable(w)
    ensures ParseTags([t, w + t]) == Success({Tag(t)})
  {
    var vs := [t, w + t];
    PaddedTagTrims(t, w);
    var r := ParseTags(vs);
    assert r.Success?;
    assert r.value == {Tag(t)} by {
      assert forall a :: a in r.value <==> a == Tag(t) by {
        assert forall i :: 0 <= i < |vs| ==> Trim(vs[i]) == t;
      }
    }
  }

  /** ...but two entries in the generic parser's list. */
  lemma RepeatedTagKeptTwice(rules: Rules, t: string, w: string)
    requires TagAttribute.IsValidTag(t) && AllTrimmable(w)
    ensures ParseAttributes(rules, TAG, [t, w + t]) == Success([Tag(t), Tag(t)])
  {
    var vs := [t, w + t];
    PaddedTagTrims(t, w);
    ParseTagIsParseAttributeAtTag(rules, t);
    ParseTagIsParseAttributeAtTag(rules, w + t);
    var r := ParseAttributes(rules, TAG, vs);
    assert r.Success?;
    assert |r.value| == 2 && r.value[0] == Tag(t) && r.value[1] == Tag(t) by {
      assert vs[0] == t && vs[1] == w + t;
    }
    assert r.value == [Tag(t), Tag(t)];
  }

  lemma PaddedTagTrims(t: string, w: string)
    requires TagAttribute.IsValidTag(t) && AllTrimmable(w)
    ensures Trim(t) == t && Trim(w + t) == t
  {
    TagAttribute.ValidTagIsTrimmed(t);
    TrimIgnoresSurroundingWhitespace(w, t, "");
    assert w + t + "" == w + t;
  }
}
