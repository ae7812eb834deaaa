/** The join keeps every concrete value, and its labels are least upper bounds (src/domain/abstract_value.rs). */
module JoinSound {
  import opened Orders
  import opened Outcomes
  import opened Text
  import opened AbstractValues

  datatype Concrete =
    | CNull
    | CBool(bit: bool)
    | CNumber(number: int)
    | CText(text: string)
    | CList(items: seq<Concrete>)
    | CObject(fields: map<string, Concrete>)

  /** Whether a text matches a pattern; the analyzer's patterns are opaque to the join. */
  type Matcher = (string, string) -> bool

  predicate TextIn(matches: Matcher, s: string, v: StringValue) {
    match v
    case NoString => false
    case Constants(values) => s in values
    case Affix(p, q) => (p.Some? ==> StartsWith(s, p.value)) && (q.Some? ==> EndsWith(s, q.value))
    case Pattern(pattern) => matches(pattern, s)
    case AnyString => true
  }

  predicate TypeAdmits(t: ValueType, c: Concrete) {
    match t
    case Never => false
    case NullType => c.CNull?
    case BoolType => c.CBool?
    case NumberType => c.CNumber?
    case StringType => c.CText?
    case ListType => c.CList?
    case ObjectType => c.CObject?
    case Dynamic => true
  }

  /** Membership of a concrete value. An object has only listed keys; a missing key means bottom. */
  predicate Has(matches: Matcher, c: Concrete, v: AbstractValue)
    decreases c, 1
  {
    TypeAdmits(v.valueType, c) && HasValue(matches, c, v.value)
  }

  predicate HasValue(matches: Matcher, c: Concrete, v: Value)
    decreases c, 0
  {
    match v
    case Bottom => false
    case Null => c.CNull?
    case Boolean(truth) => c.CBool? && (truth == Maybe || truth == if c.bit then IsTrue else IsFalse)
    case Number(lo, hi) =>
      c.CNumber? && (lo.Some? ==> lo.value <= c.number) && (hi.Some? ==> c.number <= hi.value)
    case Text(text) => c.CText? && TextIn(matches, c.text, text)
    case AnyList => c.CList?
    case List(items) =>
      c.CList? && |c.items| == |items| && forall i :: 0 <= i < |items| ==> Has(matches, c.items[i], items[i])
    case AnyObject => c.CObject?
    case Object(fields) =>
      c.CObject? && forall k :: k in c.fields ==> k in fields && Has(matches, c.fields[k], fields[k])
    case Unknown(_) => true
  }

  lemma PrefixSound(s: string, a: Option<string>, b: Option<string>)
    requires (a.Some? ==> StartsWith(s, a.value)) || (b.Some? ==> StartsWith(s, b.value))
    ensures JoinPrefixes(a, b).Some? ==> StartsWith(s, JoinPrefixes(a, b).value)
  {
    if a.Some? && b.Some? { CommonPrefixFacts(a.value, b.value); }
  }

  lemma SuffixSound(s: string, a: Option<string>, b: Option<string>)
    requires (a.Some? ==> EndsWith(s, a.value)) || (b.Some? ==> EndsWith(s, b.value))
    ensures JoinSuffixes(a, b).Some? ==> EndsWith(s, JoinSuffixes(a, b).value)
  {
    if a.Some? && b.Some? && JoinSuffixes(a, b).Some? {
      CommonSuffixFacts(a.value, b.value);
    }
  }

  lemma ConstantAffixSound(matches: Matcher, s: string, value: string, b: StringValue)
    requires b.Affix?
    requires s == value || TextIn(matches, s, b)
    ensures TextIn(matches, s, JoinConstantAffix(value, b.prefix, b.suffix))
  {
    assert s == value ==> EndsWith(s, value);
    PrefixSound(s, Some(value), b.prefix);
    SuffixSound(s, Some(value), b.suffix);
  }

  lemma StringsSound(matches: Matcher, s: string, a: StringValue, b: StringValue)
    requires TextIn(matches, s, a) || TextIn(matches, s, b)
    ensures TextIn(matches, s, JoinStrings(a, b))
  {
    if a.Constants? && b.Constants? {
      StringOrder();
      UnionMeaning(StringLess, a.values, b.values);
    } else if a.Constants? && b.Affix? && |a.values| == 1 {
      ConstantAffixSound(matches, s, a.values[0], b);
    } else if a.Affix? && b.Constants? && |b.values| == 1 {
      ConstantAffixSound(matches, s, b.values[0], a);
    } else if a.Affix? && b.Affix? {
      PrefixSound(s, a.prefix, b.prefix);
      SuffixSound(s, a.suffix, b.suffix);
    }
  }

  /** Every concrete value of either operand is a concrete value of the join, for all operands. */
  lemma {:induction false} Sound(matches: Matcher, c: Concrete, a: AbstractValue, b: AbstractValue)
    requires Has(matches, c, a) || Has(matches, c, b)
    ensures Has(matches, c, Join(a, b))
    decreases c, 1
  {
    if a.value != Bottom && b.value != Bottom {
      AssignedSound(matches, c, a.value, b.value);
    }
  }

  lemma {:induction false} AssignedSound(matches: Matcher, c: Concrete, a: Value, b: Value)
    requires HasValue(matches, c, a) || HasValue(matches, c, b)
    ensures HasValue(matches, c, AssignedValue(a, b))
    decreases c, 0
  {
    if SameLength(a, b) {
      forall i | 0 <= i < |a.items| ensures Has(matches, c.items[i], Join(a.items[i], b.items[i])) {
        Sound(matches, c.items[i], a.items[i], b.items[i]);
      }
    } else if a.Object? && b.Object? {
      var joined := AssignedValue(a, b);
      forall k | k in c.fields ensures k in joined.fields && Has(matches, c.fields[k], joined.fields[k]) {
        if k in a.fields && k in b.fields { Sound(matches, c.fields[k], a.fields[k], b.fields[k]); }
      }
    } else if a.Text? && b.Text? {
      StringsSound(matches, c.text, a.text, b.text);
    }
  }

  // ----- labels -----

  ghost predicate Within(a: seq<Reason>, b: seq<Reason>) { forall r :: r in a ==> r in b }

  ghost predicate TrustLeq(a: Trust, b: Trust) {
    match (a, b)
    case (Trusted, _) => true
    case (_, Untrusted) => true
    case (Mixed, Mixed) => true
    case (Mixed, UnknownTrust(_)) => true
    case (UnknownTrust(r), UnknownTrust(s)) => Within(r, s)
    case _ => false
  }

  ghost predicate SecrecyLeq(a: Secrecy, b: Secrecy) {
    match (a, b)
    case (Public, _) => true
    case (_, Secret) => true
    case (Sensitive, Sensitive) => true
    case (Sensitive, UnknownSecrecy(_)) => true
    case (UnknownSecrecy(r), UnknownSecrecy(s)) => Within(r, s)
    case _ => false
  }

  /** On operands that are not bottom, the label is above both and below every common bound. */
  lemma LabelsAreLeastUpperBounds(a: AbstractValue, b: AbstractValue, trust: Trust, secrecy: Secrecy)
    requires a.value != Bottom && b.value != Bottom
    ensures TrustLeq(a.trust, Join(a, b).trust) && TrustLeq(b.trust, Join(a, b).trust)
    ensures TrustLeq(a.trust, trust) && TrustLeq(b.trust, trust) ==> TrustLeq(Join(a, b).trust, trust)
    ensures SecrecyLeq(a.secrecy, Join(a, b).secrecy) && SecrecyLeq(b.secrecy, Join(a, b).secrecy)
    ensures SecrecyLeq(a.secrecy, secrecy) && SecrecyLeq(b.secrecy, secrecy)
      ==> SecrecyLeq(Join(a, b).secrecy, secrecy)
  {
    ReasonOrder();
    if a.trust.UnknownTrust? && b.trust.UnknownTrust? {
      UnionMeaning(ReasonLess, a.trust.reasons, b.trust.reasons);
    }
    if a.secrecy.UnknownSecrecy? && b.secrecy.UnknownSecrecy? {
      UnionMeaning(ReasonLess, a.secrecy.reasons, b.secrecy.reasons);
    }
  }
}
