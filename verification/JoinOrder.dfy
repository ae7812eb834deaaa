/** When the order of the joins matters (src/domain/abstract_value.rs). */
module JoinOrder {
  import opened Orders
  import opened Outcomes
  import opened Text
  import opened AbstractValues
  import opened JoinStable

  // ----- prefixes and suffixes -----

  predicate NoLeadClash(p: Option<string>, q: Option<string>) {
    p.Some? && q.Some? ==> !LeadByteClash(p.value, q.value)
  }

  lemma PrefixesCommute(p: Option<string>, q: Option<string>)
    ensures JoinPrefixes(p, q) == JoinPrefixes(q, p)
  {
    if p.Some? && q.Some? { CommonPrefixCommutes(p.value, q.value); }
  }

  predicate SameStart(p: Option<string>, q: Option<string>, r: Option<string>) {
    && p.Some? && q.Some? && r.Some?
    && p.value != [] && q.value != [] && r.value != [] && p.value[0] == q.value[0] == r.value[0]
  }

  /** At most one of the three pairs clashes. */
  predicate OneLeadClash(p: Option<string>, q: Option<string>, r: Option<string>) {
    || (NoLeadClash(p, q) && NoLeadClash(q, r))
    || (NoLeadClash(p, q) && NoLeadClash(p, r))
    || (NoLeadClash(q, r) && NoLeadClash(p, r))
  }

  lemma PrefixRunsAssociate(x: string, y: string, z: string)
    requires !LeadByteClash(x, y) && !LeadByteClash(y, z) && !LeadByteClash(x, z)
    ensures var (p, q, r) := (Some(x), Some(y), Some(z));
      && JoinPrefixes(JoinPrefixes(p, q), r) == JoinPrefixes(p, JoinPrefixes(q, r))
      && (JoinPrefixes(p, JoinPrefixes(q, r)).Some? <==> SameStart(p, q, r))
  {
    CommonOfThreeMeaning(x, y, z);
    CommonCharsMeaning(x, y);
    PrefixRun(x, y);
    PrefixRun(y, z);
    if CommonChars(x, y) > 0 { PrefixRun(x[..CommonChars(x, y)], z); }
    if CommonChars(y, z) > 0 { PrefixRun(x, y[..CommonChars(y, z)]); }
    var n := CommonOfThree(x, y, z);
    assert x[..CommonChars(x, y)][..n] == x[..n];
  }

  lemma PrefixesAssociate(p: Option<string>, q: Option<string>, r: Option<string>)
    requires OneLeadClash(p, q, r)
    ensures JoinPrefixes(JoinPrefixes(p, q), r) == JoinPrefixes(p, JoinPrefixes(q, r))
    ensures JoinPrefixes(p, JoinPrefixes(q, r)).Some? <==> SameStart(p, q, r)
  {
    if p.Some? && q.Some? && r.Some? {
      var (x, y, z) := (p.value, q.value, r.value);
      if NoLeadClash(p, q) && NoLeadClash(q, r) && NoLeadClash(p, r) {
        PrefixRunsAssociate(x, y, z);
      } else {
        CommonPrefixExact(x, y);
        CommonPrefixExact(y, z);
        CommonPrefixFacts("", z);
        CommonPrefixFacts(x, "");
      }
    }
  }

  lemma SuffixesCommute(p: Option<string>, q: Option<string>)
    ensures JoinSuffixes(p, q) == JoinSuffixes(q, p)
  {
    if p.Some? && q.Some? {
      CommonCharsCommute(Reversed(p.value), Reversed(q.value));
      CommonCharsMeaning(Reversed(p.value), Reversed(q.value));
    }
  }

  predicate SameLast(p: Option<string>, q: Option<string>, r: Option<string>) {
    && p.Some? && q.Some? && r.Some? && p.value != [] && q.value != [] && r.value != []
    && p.value[|p.value| - 1] == q.value[|q.value| - 1] == r.value[|r.value| - 1]
  }

  lemma SuffixesAssociateReversed(x: string, y: string, z: string)
    ensures var (p, q, r) := (Some(Reversed(x)), Some(Reversed(y)), Some(Reversed(z)));
      && JoinSuffixes(JoinSuffixes(p, q), r) == JoinSuffixes(p, JoinSuffixes(q, r))
      && (JoinSuffixes(p, JoinSuffixes(q, r)).Some? <==> CommonOfThree(x, y, z) > 0)
  {
    hide CommonSuffix, Reversed, CommonChars, CommonOfThree;
    CommonOfThreeMeaning(x, y, z);
    CommonCharsMeaning(x, y);
    SuffixRun(x, y);
    SuffixRun(y, z);
    SuffixRun(x[..CommonChars(x, y)], z);
    SuffixRun(x, y[..CommonChars(y, z)]);
    var n := CommonOfThree(x, y, z);
    assert x[..CommonChars(x, y)][..n] == x[..n];
  }

  lemma SuffixesAssociate(p: Option<string>, q: Option<string>, r: Option<string>)
    ensures JoinSuffixes(JoinSuffixes(p, q), r) == JoinSuffixes(p, JoinSuffixes(q, r))
    ensures JoinSuffixes(p, JoinSuffixes(q, r)).Some? <==> SameLast(p, q, r)
  {
    hide CommonSuffix, CommonChars;
    if p.Some? && q.Some? && r.Some? {
      ReversedTwice(p.value);
      ReversedTwice(q.value);
      ReversedTwice(r.value);
      SuffixesAssociateReversed(Reversed(p.value), Reversed(q.value), Reversed(r.value));
    }
  }

  // ----- strings -----

  /** The operand has a prefix and a suffix that a join can shorten: an affix or a single constant. */
  predicate HasEnds(v: StringValue) { v.Affix? || (v.Constants? && |v.values| == 1) }

  function PrefixOf(v: StringValue): Option<string>
    requires HasEnds(v)
  {
    if v.Affix? then v.prefix else Some(v.values[0])
  }

  function SuffixOf(v: StringValue): Option<string>
    requires HasEnds(v)
  {
    if v.Affix? then v.suffix else Some(v.values[0])
  }

  /** Two different single constants beside an affix, all three with a common first or last scalar. */
  predicate LosesAffix(x: StringValue, y: StringValue, affix: StringValue) {
    && x.Constants? && y.Constants? && |x.values| == 1 && |y.values| == 1 && x != y && affix.Affix?
    && (SameStart(PrefixOf(x), PrefixOf(y), affix.prefix) || SameLast(SuffixOf(x), SuffixOf(y), affix.suffix))
  }

  /** Joining the two constants first gives any string; joining one of them into the affix first does not. */
  predicate StringOrderMatters(a: StringValue, b: StringValue, c: StringValue) {
    LosesAffix(a, b, c) || LosesAffix(b, c, a)
  }

  /** Any join of operands with ends, except that of two constants, is the join of both ends. */
  lemma EndsJoin(a: StringValue, b: StringValue)
    requires HasEnds(a) && HasEnds(b) && (a.Affix? || b.Affix?) && !StringClash(a, b)
    ensures JoinStrings(a, b) ==
      AffixOrAny(JoinPrefixes(PrefixOf(a), PrefixOf(b)), JoinSuffixes(SuffixOf(a), SuffixOf(b)))
  {
    if a.Affix? && b.Constants? {
      PrefixesCommute(PrefixOf(a), PrefixOf(b));
      SuffixesCommute(SuffixOf(a), SuffixOf(b));
    }
  }

  lemma ConstantsAssociate(a: StringValue, b: StringValue, c: StringValue)
    requires StringShape(true, a) && StringShape(true, b) && StringShape(true, c)
    requires a.Constants? && b.Constants? && c.Constants?
    ensures JoinStrings(JoinStrings(a, b), c) == JoinStrings(a, JoinStrings(b, c))
  {
    StringOrder();
    var ab, bc := Union(StringLess, a.values, b.values), Union(StringLess, b.values, c.values);
    UnionMeaning(StringLess, a.values, b.values);
    UnionMeaning(StringLess, b.values, c.values);
    UnionMeaning(StringLess, ab, c.values);
    UnionMeaning(StringLess, a.values, bc);
    var all := Union(StringLess, ab, c.values);
    AscendingUnique(StringLess, all, Union(StringLess, a.values, bc));
    SubsetShorter(ab, all);
    SubsetShorter(bc, all);
  }

  lemma {:induction false} SubsetShorter(part: seq<string>, whole: seq<string>)
    requires Ascending(StringLess, part) && forall x :: x in part ==> x in whole
    ensures |part| <= |whole|
  {
    if part != [] {
      assert part[0] in whole;
      var k :| 0 <= k < |whole| && whole[k] == part[0];
      var rest := whole[..k] + whole[k + 1..];
      forall x | x in part[1..] ensures x in rest {
        StringIrreflexive(x);
        assert x in whole && x != part[0];
      }
      SubsetShorter(part[1..], rest);
    }
  }

  ghost predicate NoStringClash(a: StringValue, b: StringValue, c: StringValue) {
    !StringClash(a, b) && !StringClash(b, c) && !StringClash(a, c)
  }

  function JoinedEnds(p: Option<string>, q: Option<string>, r: Option<string>,
                      u: Option<string>, v: Option<string>, w: Option<string>): StringValue {
    AffixOrAny(JoinPrefixes(p, JoinPrefixes(q, r)), JoinSuffixes(u, JoinSuffixes(v, w)))
  }

  lemma AtMostOneClash(a: StringValue, b: StringValue, c: StringValue)
    requires NoStringClash(a, b, c)
    requires HasEnds(a) && HasEnds(b) && HasEnds(c) && (a.Affix? || b.Affix? || c.Affix?)
    ensures OneLeadClash(PrefixOf(a), PrefixOf(b), PrefixOf(c))
  {}

  lemma EndsFromLeft(a: StringValue, b: StringValue, c: StringValue)
    requires StringShape(true, a) && StringShape(true, b) && StringShape(true, c) && NoStringClash(a, b, c)
    requires HasEnds(a) && HasEnds(b) && HasEnds(c) && (a.Affix? || b.Affix?)
    ensures JoinStrings(JoinStrings(a, b), c) ==
      JoinedEnds(PrefixOf(a), PrefixOf(b), PrefixOf(c), SuffixOf(a), SuffixOf(b), SuffixOf(c))
  {
    hide CommonPrefix, CommonSuffix, LeadByteClash;
    EndsJoin(a, b);
    StringClashJoin(a, b, c);
    AtMostOneClash(a, b, c);
    PrefixesAssociate(PrefixOf(a), PrefixOf(b), PrefixOf(c));
    SuffixesAssociate(SuffixOf(a), SuffixOf(b), SuffixOf(c));
    if JoinStrings(a, b).Affix? { EndsJoin(JoinStrings(a, b), c); }
  }

  lemma EndsFromRight(a: StringValue, b: StringValue, c: StringValue)
    requires StringShape(true, a) && StringShape(true, b) && StringShape(true, c) && NoStringClash(a, b, c)
    requires HasEnds(a) && HasEnds(b) && HasEnds(c) && (b.Affix? || c.Affix?)
    ensures JoinStrings(a, JoinStrings(b, c)) ==
      JoinedEnds(PrefixOf(a), PrefixOf(b), PrefixOf(c), SuffixOf(a), SuffixOf(b), SuffixOf(c))
  {
    hide CommonPrefix, CommonSuffix;
    EndsJoin(b, c);
    StringClashJoin(b, c, a);
    if JoinStrings(b, c).Affix? { EndsJoin(a, JoinStrings(b, c)); }
  }

  lemma TwoConstants(a: StringValue, b: StringValue)
    requires a.Constants? && b.Constants? && |a.values| == 1 && |b.values| == 1
    ensures a == b ==> JoinStrings(a, b) == a
    ensures a != b ==> JoinStrings(a, b).Constants? && |JoinStrings(a, b).values| > 1
  {
    StringOrder();
    UnionMeaning(StringLess, a.values, b.values);
    var u := Union(StringLess, a.values, b.values);
    if a == b {
      AscendingUnique(StringLess, u, a.values);
    } else {
      SubsetShorter(u, a.values + b.values);
      assert a.values[0] in u && b.values[0] in u;
    }
  }

  lemma EndsAssociate(a: StringValue, b: StringValue, c: StringValue)
    requires StringShape(true, a) && StringShape(true, b) && StringShape(true, c) && NoStringClash(a, b, c)
    requires HasEnds(a) && HasEnds(b) && HasEnds(c) && (a.Affix? || b.Affix? || c.Affix?)
    ensures JoinStrings(JoinStrings(a, b), c) == JoinStrings(a, JoinStrings(b, c)) <==> !StringOrderMatters(a, b, c)
  {
    hide CommonPrefix, CommonSuffix, LeadByteClash, Union;
    AtMostOneClash(a, b, c);
    PrefixesAssociate(PrefixOf(a), PrefixOf(b), PrefixOf(c));
    SuffixesAssociate(SuffixOf(a), SuffixOf(b), SuffixOf(c));
    if a.Affix? || b.Affix? { EndsFromLeft(a, b, c); } else { TwoConstants(a, b); }
    if b.Affix? || c.Affix? { EndsFromRight(a, b, c); } else { TwoConstants(b, c); }
    if a.Constants? && b.Constants? && a == b {
      EndsJoin(a, c);
      RepeatedEnds(PrefixOf(a), SuffixOf(a), PrefixOf(c), SuffixOf(c));
    } else if b.Constants? && c.Constants? && b == c {
      EndsJoin(a, b);
      RepeatedEnds(PrefixOf(b), SuffixOf(b), PrefixOf(a), SuffixOf(a));
    }
  }

  /** Joining a text into both ends twice is joining it once. */
  lemma RepeatedEnds(p: Option<string>, u: Option<string>, q: Option<string>, v: Option<string>)
    requires NoLeadClash(p, q)
    ensures JoinPrefixes(p, JoinPrefixes(p, q)) == JoinPrefixes(p, q)
    ensures JoinPrefixes(q, JoinPrefixes(p, p)) == JoinPrefixes(q, p)
    ensures JoinSuffixes(u, JoinSuffixes(u, v)) == JoinSuffixes(u, v)
    ensures JoinSuffixes(v, JoinSuffixes(u, u)) == JoinSuffixes(v, u)
  {
    hide CommonPrefix, CommonSuffix;
    PrefixesAssociate(p, p, q);
    SuffixesAssociate(u, u, v);
    PrefixesAssociate(q, p, p);
    SuffixesAssociate(v, u, u);
    if p.Some? { CommonPrefixFacts(p.value, p.value); }
    if u.Some? { CommonSuffixFacts(u.value, u.value); }
    if p.Some? && q.Some? { CommonPrefixFacts(p.value, q.value); CommonPrefixFacts(q.value, p.value); }
    if u.Some? && v.Some? { CommonSuffixFacts(u.value, v.value); CommonSuffixFacts(v.value, u.value); }
  }

  /** Many constants stay many or become any string. */
  lemma ManyConstants(a: StringValue, b: StringValue)
    requires StringShape(true, a) && StringShape(true, b)
    requires a.Constants? && b.Constants? && (|a.values| > 1 || |b.values| > 1)
    ensures JoinStrings(a, b).AnyString? || (JoinStrings(a, b).Constants? && |JoinStrings(a, b).values| > 1)
  {
    StringOrder();
    UnionMeaning(StringLess, a.values, b.values);
    var u := Union(StringLess, a.values, b.values);
    SubsetShorter(a.values, u);
    SubsetShorter(b.values, u);
  }

  lemma ManyAssociate(a: StringValue, b: StringValue, c: StringValue)
    requires StringShape(true, a) && StringShape(true, b) && StringShape(true, c)
    requires !a.NoString? && !b.NoString? && !c.NoString?
    requires !HasEnds(a) || !HasEnds(b) || !HasEnds(c)
    requires !(a.Constants? && b.Constants? && c.Constants?)
    ensures JoinStrings(JoinStrings(a, b), c) == JoinStrings(a, JoinStrings(b, c))
  {
    hide CommonPrefix, CommonSuffix, Union, LeadByteClash;
    if a.Constants? && b.Constants? && (|a.values| > 1 || |b.values| > 1) { ManyConstants(a, b); }
    if b.Constants? && c.Constants? && (|b.values| > 1 || |c.values| > 1) { ManyConstants(b, c); }
  }

  /** The string join associates except beside two different constants that share an end with an affix. */
  lemma StringAssociatesExactly(a: StringValue, b: StringValue, c: StringValue)
    requires StringShape(true, a) && StringShape(true, b) && StringShape(true, c) && NoStringClash(a, b, c)
    ensures JoinStrings(JoinStrings(a, b), c) == JoinStrings(a, JoinStrings(b, c)) <==> !StringOrderMatters(a, b, c)
  {
    if a.NoString? || b.NoString? || c.NoString? {
      return;
    } else if a.Constants? && b.Constants? && c.Constants? {
      ConstantsAssociate(a, b, c);
    } else if HasEnds(a) && HasEnds(b) && HasEnds(c) {
      EndsAssociate(a, b, c);
    } else {
      ManyAssociate(a, b, c);
    }
  }

  // ----- whole values -----

  /** Somewhere inside all three values the order of string joins matters. */
  predicate OrderMatters(a: AbstractValue, b: AbstractValue, c: AbstractValue)
    decreases b
  {
    if a.value.List? && b.value.List? && c.value.List? then
      |a.value.items| == |b.value.items| == |c.value.items|
      && exists i :: 0 <= i < |a.value.items| && OrderMatters(a.value.items[i], b.value.items[i], c.value.items[i])
    else if a.value.Object? && b.value.Object? && c.value.Object? then
      exists k :: k in a.value.fields && k in b.value.fields && k in c.value.fields
        && OrderMatters(a.value.fields[k], b.value.fields[k], c.value.fields[k])
    else
      a.value.Text? && b.value.Text? && c.value.Text? && StringOrderMatters(a.value.text, b.value.text, c.value.text)
  }

  lemma UnionAssociates<T(!new)>(less: (T, T) -> bool, a: seq<T>, b: seq<T>, c: seq<T>)
    requires Total(less)
    ensures Union(less, Union(less, a, b), c) == Union(less, a, Union(less, b, c))
  {
    UnionMeaning(less, a, b);
    UnionMeaning(less, b, c);
    UnionMeaning(less, Union(less, a, b), c);
    UnionMeaning(less, a, Union(less, b, c));
    AscendingUnique(less, Union(less, Union(less, a, b), c), Union(less, a, Union(less, b, c)));
  }

  lemma LabelsAssociate(a: AbstractValue, b: AbstractValue, c: AbstractValue)
    ensures JoinTrust(JoinTrust(a.trust, b.trust), c.trust) == JoinTrust(a.trust, JoinTrust(b.trust, c.trust))
    ensures JoinSecrecy(JoinSecrecy(a.secrecy, b.secrecy), c.secrecy)
      == JoinSecrecy(a.secrecy, JoinSecrecy(b.secrecy, c.secrecy))
    ensures JoinTypes(JoinTypes(a.valueType, b.valueType), c.valueType)
      == JoinTypes(a.valueType, JoinTypes(b.valueType, c.valueType))
  {
    hide Union;
    ReasonOrder();
    if a.trust.UnknownTrust? && b.trust.UnknownTrust? && c.trust.UnknownTrust? {
      UnionAssociates(ReasonLess, a.trust.reasons, b.trust.reasons, c.trust.reasons);
    }
    if a.secrecy.UnknownSecrecy? && b.secrecy.UnknownSecrecy? && c.secrecy.UnknownSecrecy? {
      UnionAssociates(ReasonLess, a.secrecy.reasons, b.secrecy.reasons, c.secrecy.reasons);
    }
  }

  // ----- values that become unknown -----

  datatype Kind = NullKind | BooleanKind | NumberKind | TextKind | ListKind | ObjectKind

  function KindOf(v: Value): Kind
    requires v != Bottom && !v.Unknown?
  {
    match v
    case Null => NullKind
    case Boolean(_) => BooleanKind
    case Number(_, _) => NumberKind
    case Text(_) => TextKind
    case AnyList => ListKind
    case List(_) => ListKind
    case _ => ObjectKind
  }

  predicate Compatible(a: Value, b: Value) {
    a != Bottom && b != Bottom && !a.Unknown? && !b.Unknown? && KindOf(a) == KindOf(b)
  }

  /** The reasons that a value brings into an unknown join. */
  function ReasonsOf(v: Value): seq<Reason> { if v.Unknown? then v.reasons else [Incompatible] }

  lemma CompatibleJoin(a: Value, b: Value)
    requires Compatible(a, b)
    ensures AssignedValue(a, b) != Bottom && !AssignedValue(a, b).Unknown?
    ensures KindOf(AssignedValue(a, b)) == KindOf(a)
  {}

  lemma IncompatibleJoin(a: Value, b: Value)
    requires a != Bottom && b != Bottom && !Compatible(a, b)
    ensures AssignedValue(a, b).Unknown?
    ensures AssignedValue(a, b).reasons in
      (if a.Unknown? || b.Unknown? then
         {ReasonUnion(ReasonsOf(a), ReasonsOf(b)), ReasonUnion(ReasonsOf(b), ReasonsOf(a))}
       else {[Incompatible]})
  {
    hide Union;
  }

  lemma UnknownJoin(a: Value, b: Value)
    requires a != Bottom && b != Bottom
    ensures AssignedValue(a, b) != Bottom
    ensures AssignedValue(a, b).Unknown? <==> !Compatible(a, b)
    ensures Compatible(a, b) ==> KindOf(AssignedValue(a, b)) == KindOf(a)
    ensures Ascending(ReasonLess, ReasonsOf(AssignedValue(a, b)))
    ensures forall r :: r in ReasonsOf(AssignedValue(a, b)) <==> r in ReasonsOf(a) || r in ReasonsOf(b)
  {
    hide AssignedValue, ReasonUnion;
    JoinedReasons(ReasonsOf(a), ReasonsOf(b));
    JoinedReasons(ReasonsOf(b), ReasonsOf(a));
    if Compatible(a, b) { CompatibleJoin(a, b); } else { IncompatibleJoin(a, b); }
  }

  predicate Associates(a: Value, b: Value, c: Value) {
    AssignedValue(AssignedValue(a, b), c) == AssignedValue(a, AssignedValue(b, c))
  }

  lemma UnknownAssociates(a: Value, b: Value, c: Value)
    requires a != Bottom && b != Bottom && c != Bottom && !(Compatible(a, b) && Compatible(b, c))
    ensures Associates(a, b, c)
  {
    hide AssignedValue;
    UnknownJoin(a, b);
    UnknownJoin(b, c);
    UnknownJoin(AssignedValue(a, b), c);
    UnknownJoin(a, AssignedValue(b, c));
    ReasonOrder();
    var (l, r) := (AssignedValue(AssignedValue(a, b), c), AssignedValue(a, AssignedValue(b, c)));
    AscendingUnique(ReasonLess, ReasonsOf(l), ReasonsOf(r));
  }

  // ----- compatible values -----

  ghost predicate NoClashOfThree(a: AbstractValue, b: AbstractValue, c: AbstractValue) {
    !Clash(a, b) && !Clash(b, c) && !Clash(a, c)
  }

  lemma FlatAssociates(a: Value, b: Value, c: Value)
    requires Compatible(a, b) && Compatible(b, c) && !a.Text?
    requires !(SameLength(a, b) && SameLength(b, c)) && !(a.Object? && b.Object? && c.Object?)
    ensures Associates(a, b, c)
  {
    hide Join, JoinStrings, ReasonUnion;
  }

  lemma TextAssociates(a: Value, b: Value, c: Value)
    requires a.Text? && b.Text? && c.Text?
    ensures Associates(a, b, c) <==>
      JoinStrings(JoinStrings(a.text, b.text), c.text) == JoinStrings(a.text, JoinStrings(b.text, c.text))
  {
    hide JoinStrings;
  }

  lemma ValueDecides(a: AbstractValue, b: AbstractValue, c: AbstractValue)
    requires a.value != Bottom && b.value != Bottom && c.value != Bottom
    ensures Join(Join(a, b), c) == Join(a, Join(b, c)) <==> Associates(a.value, b.value, c.value)
  {
    hide AssignedValue, Union, JoinTrust, JoinSecrecy, JoinTypes;
    LabelsAssociate(a, b, c);
    ProvenanceOrder();
    UnionAssociates(ProvenanceLess, a.provenance, b.provenance, c.provenance);
    UnknownJoin(a.value, b.value);
    UnknownJoin(b.value, c.value);
  }

  /** Joining three values associates exactly when the order of the string joins inside them does not matter. */
  lemma {:induction false} JoinAssociatesExactly(a: AbstractValue, b: AbstractValue, c: AbstractValue)
    requires Normal(a) && Normal(b) && Normal(c) && NoClashOfThree(a, b, c)
    ensures Join(Join(a, b), c) == Join(a, Join(b, c)) <==> !OrderMatters(a, b, c)
    decreases b, 1
  {
    hide AssignedValue, JoinStrings, StringOrderMatters, Associates;
    if a.value == Bottom || b.value == Bottom || c.value == Bottom {
      if a.value != Bottom && b.value != Bottom {
        UnknownJoin(a.value, b.value);
        assert Join(a, b).value == AssignedValue(a.value, b.value) != Bottom;
      }
      return;
    }
    assert ValueShape(true, a.value) && ValueShape(true, b.value) && ValueShape(true, c.value);
    ValueDecides(a, b, c);
    if !(Compatible(a.value, b.value) && Compatible(b.value, c.value)) {
      UnknownAssociates(a.value, b.value, c.value);
    } else if SameLength(a.value, b.value) && SameLength(b.value, c.value) {
      ItemsAssociate(a, b, c);
    } else if a.value.Object? && b.value.Object? && c.value.Object? {
      FieldsAssociate(a, b, c);
    } else if a.value.Text? {
      TextAssociates(a.value, b.value, c.value);
      StringAssociatesExactly(a.value.text, b.value.text, c.value.text);
    } else {
      FlatAssociates(a.value, b.value, c.value);
    }
  }

  lemma {:induction false} ItemsAssociate(a: AbstractValue, b: AbstractValue, c: AbstractValue)
    requires Normal(a) && Normal(b) && Normal(c) && NoClashOfThree(a, b, c)
    requires SameLength(a.value, b.value) && SameLength(b.value, c.value)
    ensures Associates(a.value, b.value, c.value) <==> !OrderMatters(a, b, c)
    decreases b, 0
  {
    hide Join;
    var (x, y, z) := (a.value.items, b.value.items, c.value.items);
    var l := AssignedValue(AssignedValue(a.value, b.value), c.value);
    var r := AssignedValue(a.value, AssignedValue(b.value, c.value));
    assert ValueShape(true, a.value) && ValueShape(true, b.value) && ValueShape(true, c.value);
    forall i | 0 <= i < |x| ensures l.items[i] == r.items[i] <==> !OrderMatters(x[i], y[i], z[i]) {
      JoinAssociatesExactly(x[i], y[i], z[i]);
    }
    if !OrderMatters(a, b, c) { assert l.items == r.items; }
  }

  lemma FieldsJoined(a: Value, b: Value, k: string)
    requires a.Object? && b.Object?
    ensures AssignedValue(a, b).Object?
    ensures AssignedValue(a, b).fields.Keys == a.fields.Keys + b.fields.Keys
    ensures k in a.fields && k in b.fields ==> AssignedValue(a, b).fields[k] == Join(a.fields[k], b.fields[k])
    ensures k in a.fields && k !in b.fields ==> AssignedValue(a, b).fields[k] == a.fields[k]
    ensures k !in a.fields && k in b.fields ==> AssignedValue(a, b).fields[k] == b.fields[k]
  {
    hide Join;
  }

  lemma FieldAssociates(a: Value, b: Value, c: Value, k: string)
    requires a.Object? && b.Object? && c.Object?
    ensures AssignedValue(AssignedValue(a, b), c).Object? && AssignedValue(a, AssignedValue(b, c)).Object?
    ensures AssignedValue(AssignedValue(a, b), c).fields.Keys == AssignedValue(a, AssignedValue(b, c)).fields.Keys
    ensures k in AssignedValue(AssignedValue(a, b), c).fields ==>
      (AssignedValue(AssignedValue(a, b), c).fields[k] == AssignedValue(a, AssignedValue(b, c)).fields[k]
       <==> (k in a.fields && k in b.fields && k in c.fields ==>
          Join(Join(a.fields[k], b.fields[k]), c.fields[k]) == Join(a.fields[k], Join(b.fields[k], c.fields[k]))))
    ensures k in a.fields ==> k in AssignedValue(AssignedValue(a, b), c).fields
  {
    hide AssignedValue, Join;
    FieldsJoined(a, b, k);
    FieldsJoined(b, c, k);
    FieldsJoined(AssignedValue(a, b), c, k);
    FieldsJoined(a, AssignedValue(b, c), k);
  }

  lemma {:induction false} FieldsAssociate(a: AbstractValue, b: AbstractValue, c: AbstractValue)
    requires Normal(a) && Normal(b) && Normal(c) && NoClashOfThree(a, b, c)
    requires a.value.Object? && b.value.Object? && c.value.Object?
    ensures Associates(a.value, b.value, c.value) <==> !OrderMatters(a, b, c)
    decreases b, 0
  {
    hide Join, AssignedValue;
    var (x, y, z) := (a.value.fields, b.value.fields, c.value.fields);
    var l := AssignedValue(AssignedValue(a.value, b.value), c.value);
    var r := AssignedValue(a.value, AssignedValue(b.value, c.value));
    assert ValueShape(true, a.value) && ValueShape(true, b.value) && ValueShape(true, c.value);
    FieldAssociates(a.value, b.value, c.value, "");
    forall k | k in l.fields
      ensures l.fields[k] == r.fields[k] <==> !(k in x && k in y && k in z && OrderMatters(x[k], y[k], z[k]))
    {
      FieldAssociates(a.value, b.value, c.value, k);
      if k in x && k in y && k in z { JoinAssociatesExactly(x[k], y[k], z[k]); }
    }
    if OrderMatters(a, b, c) {
      var k :| k in x && k in y && k in z && OrderMatters(x[k], y[k], z[k]);
      FieldAssociates(a.value, b.value, c.value, k);
    } else {
      assert l.fields == r.fields;
    }
  }

  // ----- the two operands -----

  lemma UnionCommutes<T(!new)>(less: (T, T) -> bool, a: seq<T>, b: seq<T>)
    requires Total(less)
    ensures Union(less, a, b) == Union(less, b, a)
  {
    UnionMeaning(less, a, b);
    UnionMeaning(less, b, a);
    AscendingUnique(less, Union(less, a, b), Union(less, b, a));
  }

  lemma StringsCommute(a: StringValue, b: StringValue)
    ensures JoinStrings(a, b) == JoinStrings(b, a)
  {
    hide CommonPrefix, CommonSuffix, Union;
    if a.Constants? && b.Constants? {
      StringOrder();
      UnionCommutes(StringLess, a.values, b.values);
    } else if a.Affix? && b.Affix? {
      PrefixesCommute(a.prefix, b.prefix);
      SuffixesCommute(a.suffix, b.suffix);
    }
  }

  lemma LabelsCommute(a: AbstractValue, b: AbstractValue)
    ensures JoinTrust(a.trust, b.trust) == JoinTrust(b.trust, a.trust)
    ensures JoinSecrecy(a.secrecy, b.secrecy) == JoinSecrecy(b.secrecy, a.secrecy)
    ensures JoinTypes(a.valueType, b.valueType) == JoinTypes(b.valueType, a.valueType)
  {
    hide Union;
    ReasonOrder();
    if a.trust.UnknownTrust? && b.trust.UnknownTrust? {
      UnionCommutes(ReasonLess, a.trust.reasons, b.trust.reasons);
    }
    if a.secrecy.UnknownSecrecy? && b.secrecy.UnknownSecrecy? {
      UnionCommutes(ReasonLess, a.secrecy.reasons, b.secrecy.reasons);
    }
  }

  lemma FlatCommutes(a: Value, b: Value)
    ensures JoinFlat(a, b) == JoinFlat(b, a)
  {
    hide JoinStrings, Union;
    if a.Text? && b.Text? { StringsCommute(a.text, b.text); }
    if a.Unknown? && b.Unknown? {
      ReasonOrder();
      UnionCommutes(ReasonLess, a.reasons, b.reasons);
    }
  }

  /** The join commutes on values whose bottoms are the default value. */
  lemma {:induction false} JoinCommutes(a: AbstractValue, b: AbstractValue)
    requires Shape(false, a) && Shape(false, b)
    ensures Join(a, b) == Join(b, a)
    decreases b, 1
  {
    hide Union, JoinFlat, JoinTrust, JoinSecrecy, JoinTypes;
    if a.value != Bottom && b.value != Bottom {
      LabelsCommute(a, b);
      ProvenanceOrder();
      UnionCommutes(ProvenanceLess, a.provenance, b.provenance);
      AssignedCommutes(a.value, b.value);
    }
  }

  lemma {:induction false} AssignedCommutes(a: Value, b: Value)
    requires ValueShape(false, a) && ValueShape(false, b)
    ensures AssignedValue(a, b) == AssignedValue(b, a)
    decreases b, 0
  {
    hide Join, JoinFlat;
    var (l, r) := (AssignedValue(a, b), AssignedValue(b, a));
    if SameLength(a, b) {
      forall i | 0 <= i < |a.items| ensures l.items[i] == r.items[i] { JoinCommutes(a.items[i], b.items[i]); }
      assert l.items == r.items;
    } else if a.Object? && b.Object? {
      forall k | k in a.fields && k in b.fields ensures l.fields[k] == r.fields[k] {
        JoinCommutes(a.fields[k], b.fields[k]);
      }
      assert l.fields == r.fields;
    } else {
      FlatCommutes(a, b);
    }
  }
}
