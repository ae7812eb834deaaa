/** Normal forms and second passes of joins (src/domain/abstract_value.rs). */
module JoinStable {
  import opened Orders
  import opened Outcomes
  import opened Text
  import opened AbstractValues
  import opened JoinSound

  // ----- normal forms -----

  predicate StringShape(strict: bool, v: StringValue) {
    match v
    case Constants(values) => values != [] && |values| <= MaxConstants && Ascending(StringLess, values)
    case Affix(p, q) =>
      (p.Some? || q.Some?) && (strict && p.Some? ==> p.value != []) && (q.Some? ==> q.value != [])
    case _ => true
  }

  predicate TrustShape(t: Trust) { t.UnknownTrust? ==> Ascending(ReasonLess, t.reasons) }

  predicate SecrecyShape(s: Secrecy) { s.UnknownSecrecy? ==> Ascending(ReasonLess, s.reasons) }

  /** The normal form if `strict`; otherwise affixes may also carry an empty prefix. */
  predicate Shape(strict: bool, v: AbstractValue) {
    && (v.value == Bottom ==> v == Default)
    && ValueShape(strict, v.value)
    && TrustShape(v.trust)
    && SecrecyShape(v.secrecy)
    && Ascending(ProvenanceLess, v.provenance)
  }

  predicate ValueShape(strict: bool, v: Value) {
    match v
    case Text(text) => StringShape(strict, text)
    case List(items) => forall i :: 0 <= i < |items| ==> Shape(strict, items[i])
    case Object(fields) => forall k :: k in fields ==> Shape(strict, fields[k])
    case Unknown(reasons) => Ascending(ReasonLess, reasons)
    case _ => true
  }

  predicate Normal(v: AbstractValue) { Shape(true, v) }

  // ----- absorption -----

  predicate PrefixAbsorbs(p: Option<string>, q: Option<string>) {
    p.Some? ==> q.Some? && StartsWith(q.value, p.value)
  }

  predicate SuffixAbsorbs(p: Option<string>, q: Option<string>) {
    p.Some? ==> q.Some? && EndsWith(q.value, p.value)
  }

  ghost predicate StringAbsorbs(a: StringValue, b: StringValue) {
    || b.NoString?
    || a.AnyString?
    || (a.Constants? && b.Constants? && forall x :: x in b.values ==> x in a.values)
    || (a.Affix? && b.Constants? && |b.values| == 1
        && PrefixAbsorbs(a.prefix, Some(b.values[0])) && SuffixAbsorbs(a.suffix, Some(b.values[0])))
    || (a.Affix? && b.Affix? && PrefixAbsorbs(a.prefix, b.prefix) && SuffixAbsorbs(a.suffix, b.suffix))
    || (a.Pattern? && a == b)
  }

  ghost predicate ValueAbsorbs(a: Value, b: Value) {
    if a.Unknown? then if b.Unknown? then Within(b.reasons, a.reasons) else Incompatible in a.reasons
    else if a.AnyList? then IsList(b)
    else if a.AnyObject? then IsObject(b)
    else match b
      case Null => a.Null?
      case Boolean(t) => a.Boolean? && (a.truth == Maybe || a.truth == t)
      case Number(lo, hi) =>
        a.Number? && (a.minimum.Some? ==> lo.Some? && a.minimum.value <= lo.value)
        && (a.maximum.Some? ==> hi.Some? && hi.value <= a.maximum.value)
      case Text(t) => a.Text? && StringAbsorbs(a.text, t)
      case List(items) =>
        a.List? && |a.items| == |items| && forall i :: 0 <= i < |items| ==> Absorbs(a.items[i], items[i])
      case Object(fields) =>
        a.Object? && forall k :: k in fields ==> k in a.fields && Absorbs(a.fields[k], fields[k])
      case _ => false
  }

  /** `a` already accounts for `b`: the part of the state that later joins never lose. */
  ghost predicate Absorbs(a: AbstractValue, b: AbstractValue) {
    b.value == Bottom || (
      && a.value != Bottom
      && (b.valueType == Never || a.valueType == b.valueType || a.valueType == Dynamic)
      && ValueAbsorbs(a.value, b.value)
      && TrustLeq(b.trust, a.trust)
      && SecrecyLeq(b.secrecy, a.secrecy)
      && forall x :: x in b.provenance ==> x in a.provenance)
  }

  // ----- prefixes and suffixes -----

  lemma PrefixJoinAbsorbs(p: Option<string>, q: Option<string>, r: Option<string>)
    ensures PrefixAbsorbs(p, r) || PrefixAbsorbs(q, r) ==> PrefixAbsorbs(JoinPrefixes(p, q), r)
  {
    if p.Some? && q.Some? { CommonPrefixFacts(p.value, q.value); }
  }

  lemma SuffixJoinAbsorbs(p: Option<string>, q: Option<string>, r: Option<string>)
    ensures SuffixAbsorbs(p, r) || SuffixAbsorbs(q, r) ==> SuffixAbsorbs(JoinSuffixes(p, q), r)
  {
    if r.Some? && (SuffixAbsorbs(p, r) || SuffixAbsorbs(q, r)) { SuffixSound(r.value, p, q); }
    if p.Some? && q.Some? { CommonSuffixFacts(p.value, q.value); }
  }

  /** A nonempty prefix survives a join exactly when it absorbs the other side. */
  lemma PrefixUnchanged(p: Option<string>, q: Option<string>)
    requires p.Some? ==> p.value != []
    ensures JoinPrefixes(p, q) == p <==> PrefixAbsorbs(p, q)
    ensures JoinPrefixes(q, p) == p <==> PrefixAbsorbs(p, q)
  {
    if p.Some? && q.Some? {
      CommonPrefixFacts(p.value, q.value);
      CommonPrefixFacts(q.value, p.value);
    }
  }

  lemma SuffixUnchanged(p: Option<string>, q: Option<string>)
    requires p.Some? ==> p.value != []
    ensures JoinSuffixes(p, q) == p <==> SuffixAbsorbs(p, q)
    ensures JoinSuffixes(q, p) == p <==> SuffixAbsorbs(p, q)
  {
    if p.Some? && q.Some? {
      CommonSuffixFacts(p.value, q.value);
      CommonSuffixFacts(q.value, p.value);
    }
  }

  /** The joined prefix is present but empty exactly on a clash of first bytes. */
  lemma EmptyPrefixExactly(p: Option<string>, q: Option<string>)
    ensures JoinPrefixes(p, q) == Some("") <==> p.Some? && q.Some? && LeadByteClash(p.value, q.value)
  {
    if p.Some? && q.Some? { CommonPrefixFacts(p.value, q.value); }
  }

  // ----- strings -----

  lemma StringJoinShape(a: StringValue, b: StringValue)
    requires StringShape(false, a) && StringShape(false, b)
    ensures StringShape(false, JoinStrings(a, b))
  {
    if a.Constants? && b.Constants? {
      StringOrder();
      UnionMeaning(StringLess, a.values, b.values);
      assert a.values[0] in Union(StringLess, a.values, b.values);
    } else if a.Constants? && b.Affix? && |a.values| == 1 {
      if b.suffix.Some? { CommonSuffixFacts(a.values[0], b.suffix.value); }
    } else if a.Affix? && b.Constants? && |b.values| == 1 {
      if a.suffix.Some? { CommonSuffixFacts(b.values[0], a.suffix.value); }
    } else if a.Affix? && b.Affix? && a.suffix.Some? && b.suffix.Some? {
      CommonSuffixFacts(a.suffix.value, b.suffix.value);
    }
  }

  lemma SingletonSubset(a: seq<string>, b: seq<string>)
    requires |a| == 1 && b != [] && Ascending(StringLess, b) && forall x :: x in b ==> x in a
    ensures b == a
  {
    assert b[0] in b;
    StringOrder();
    AscendingUnique(StringLess, b, a);
  }

  lemma StringAbsorbsRight(a: StringValue, b: StringValue)
    requires StringShape(false, a) && StringShape(false, b)
    ensures StringAbsorbs(JoinStrings(a, b), b)
  {
    if a.Constants? && b.Constants? {
      StringOrder();
      UnionMeaning(StringLess, a.values, b.values);
    } else if a.Constants? && b.Affix? && |a.values| == 1 {
      PrefixJoinAbsorbs(Some(a.values[0]), b.prefix, b.prefix);
      SuffixJoinAbsorbs(Some(a.values[0]), b.suffix, b.suffix);
    } else if a.Affix? && b.Constants? && |b.values| == 1 {
      PrefixJoinAbsorbs(Some(b.values[0]), a.prefix, Some(b.values[0]));
      SuffixJoinAbsorbs(Some(b.values[0]), a.suffix, Some(b.values[0]));
    } else if a.Affix? && b.Affix? {
      PrefixJoinAbsorbs(a.prefix, b.prefix, b.prefix);
      SuffixJoinAbsorbs(a.suffix, b.suffix, b.suffix);
    }
  }

  lemma StringAbsorbsLater(a: StringValue, b: StringValue, c: StringValue)
    requires StringShape(false, a) && StringShape(false, b) && StringShape(false, c)
    requires StringAbsorbs(a, b)
    ensures StringAbsorbs(JoinStrings(a, c), b)
  {
    if a.Constants? && c.Constants? {
      StringOrder();
      UnionMeaning(StringLess, a.values, c.values);
    } else if a.Constants? && c.Affix? && |a.values| == 1 && b.Constants? {
      SingletonSubset(a.values, b.values);
      PrefixJoinAbsorbs(Some(a.values[0]), c.prefix, Some(b.values[0]));
      SuffixJoinAbsorbs(Some(a.values[0]), c.suffix, Some(b.values[0]));
    } else if a.Affix? && (c.Affix? || (c.Constants? && |c.values| == 1)) && !b.NoString? {
      var (bp, bq) := if b.Affix? then (b.prefix, b.suffix) else (Some(b.values[0]), Some(b.values[0]));
      if c.Affix? {
        PrefixJoinAbsorbs(a.prefix, c.prefix, bp);
        SuffixJoinAbsorbs(a.suffix, c.suffix, bq);
      } else {
        PrefixJoinAbsorbs(Some(c.values[0]), a.prefix, bp);
        SuffixJoinAbsorbs(Some(c.values[0]), a.suffix, bq);
      }
    }
  }

  lemma StringUnchanged(a: StringValue, b: StringValue)
    requires StringShape(true, a) && StringShape(true, b)
    ensures JoinStrings(a, b) == a <==> StringAbsorbs(a, b)
  {
    if a.Constants? && b.Constants? {
      StringOrder();
      UnionMeaning(StringLess, a.values, b.values);
      if StringAbsorbs(a, b) {
        AscendingUnique(StringLess, Union(StringLess, a.values, b.values), a.values);
      }
    } else if a.Affix? && b.Constants? && |b.values| == 1 {
      PrefixUnchanged(a.prefix, Some(b.values[0]));
      SuffixUnchanged(a.suffix, Some(b.values[0]));
    } else if a.Affix? && b.Affix? {
      PrefixUnchanged(a.prefix, b.prefix);
      SuffixUnchanged(a.suffix, b.suffix);
    }
  }

  /** The join takes the prefix of two texts that share a first byte but not a first scalar. */
  predicate StringClash(a: StringValue, b: StringValue) {
    || (a.Constants? && |a.values| == 1 && b.Affix? && b.prefix.Some? && LeadByteClash(a.values[0], b.prefix.value))
    || (b.Constants? && |b.values| == 1 && a.Affix? && a.prefix.Some? && LeadByteClash(b.values[0], a.prefix.value))
    || (a.Affix? && b.Affix? && a.prefix.Some? && b.prefix.Some? && LeadByteClash(a.prefix.value, b.prefix.value))
  }

  lemma StringNormalExactly(a: StringValue, b: StringValue)
    requires StringShape(true, a) && StringShape(true, b)
    ensures StringShape(true, JoinStrings(a, b)) <==> !StringClash(a, b)
  {
    StringJoinShape(a, b);
    if a.Constants? && b.Affix? && |a.values| == 1 {
      EmptyPrefixExactly(Some(a.values[0]), b.prefix);
    } else if a.Affix? && b.Constants? && |b.values| == 1 {
      EmptyPrefixExactly(Some(b.values[0]), a.prefix);
    } else if a.Affix? && b.Affix? {
      EmptyPrefixExactly(a.prefix, b.prefix);
    }
  }

  // ----- values -----

  lemma JoinedReasons(a: seq<Reason>, b: seq<Reason>)
    ensures Ascending(ReasonLess, ReasonUnion(a, b))
    ensures forall r :: r in ReasonUnion(a, b) <==> r in a || r in b
  {
    ReasonOrder();
    UnionMeaning(ReasonLess, a, b);
  }

  lemma JoinedProvenance(a: seq<Provenance>, b: seq<Provenance>)
    ensures Ascending(ProvenanceLess, Union(ProvenanceLess, a, b))
    ensures forall x :: x in Union(ProvenanceLess, a, b) <==> x in a || x in b
  {
    ProvenanceOrder();
    UnionMeaning(ProvenanceLess, a, b);
  }

  lemma FlatShape(a: Value, b: Value)
    requires ValueShape(false, a) && ValueShape(false, b)
    ensures ValueShape(false, JoinFlat(a, b))
  {
    hide JoinStrings, ReasonUnion;
    if a.Text? && b.Text? { StringJoinShape(a.text, b.text); }
    if a.Unknown? {
      JoinedReasons(a.reasons, if b.Unknown? then b.reasons else [Incompatible]);
    } else if b.Unknown? {
      JoinedReasons(b.reasons, [Incompatible]);
    }
  }

  lemma LabelShape(a: AbstractValue, b: AbstractValue)
    requires TrustShape(a.trust) && TrustShape(b.trust) && SecrecyShape(a.secrecy) && SecrecyShape(b.secrecy)
    ensures TrustShape(JoinTrust(a.trust, b.trust)) && SecrecyShape(JoinSecrecy(a.secrecy, b.secrecy))
  {
    if a.trust.UnknownTrust? && b.trust.UnknownTrust? { JoinedReasons(a.trust.reasons, b.trust.reasons); }
    if a.secrecy.UnknownSecrecy? && b.secrecy.UnknownSecrecy? {
      JoinedReasons(a.secrecy.reasons, b.secrecy.reasons);
    }
  }

  lemma {:induction false} JoinShape(a: AbstractValue, b: AbstractValue)
    requires Shape(false, a) && Shape(false, b)
    ensures Shape(false, Join(a, b))
    decreases b
  {
    if a.value != Bottom && b.value != Bottom {
      AssignedShape(a.value, b.value);
      LabelShape(a, b);
      JoinedProvenance(a.provenance, b.provenance);
    }
  }

  lemma {:induction false} AssignedShape(a: Value, b: Value)
    requires ValueShape(false, a) && ValueShape(false, b) && a != Bottom && b != Bottom
    ensures ValueShape(false, AssignedValue(a, b)) && AssignedValue(a, b) != Bottom
    decreases b
  {
    if SameLength(a, b) {
      forall i | 0 <= i < |a.items| ensures Shape(false, Join(a.items[i], b.items[i])) {
        JoinShape(a.items[i], b.items[i]);
      }
    } else if a.Object? && b.Object? {
      forall k | k in a.fields && k in b.fields ensures Shape(false, Join(a.fields[k], b.fields[k])) {
        JoinShape(a.fields[k], b.fields[k]);
      }
    } else {
      FlatShape(a, b);
    }
  }

  lemma {:induction false} AbsorbsItself(a: AbstractValue)
    requires Shape(false, a)
    ensures Absorbs(a, a)
  {
    if a.value.List? {
      forall i | 0 <= i < |a.value.items| ensures Absorbs(a.value.items[i], a.value.items[i]) {
        AbsorbsItself(a.value.items[i]);
      }
    } else if a.value.Object? {
      forall k | k in a.value.fields ensures Absorbs(a.value.fields[k], a.value.fields[k]) {
        AbsorbsItself(a.value.fields[k]);
      }
    }
    if a.value != Bottom { ValueAbsorbsItself(a.value); }
  }

  lemma ValueAbsorbsItself(v: Value)
    requires ValueShape(false, v) && v != Bottom
    requires v.List? ==> forall i :: 0 <= i < |v.items| ==> Absorbs(v.items[i], v.items[i])
    requires v.Object? ==> forall k :: k in v.fields ==> Absorbs(v.fields[k], v.fields[k])
    ensures ValueAbsorbs(v, v)
  {
    if v.Text? { assert StringAbsorbs(v.text, v.text); }
  }

  lemma FlatAbsorbsRight(a: Value, b: Value)
    requires ValueShape(false, a) && ValueShape(false, b) && a != Bottom && b != Bottom
    requires !SameLength(a, b) && !(a.Object? && b.Object?)
    ensures ValueAbsorbs(JoinFlat(a, b), b)
  {
    hide JoinStrings, StringAbsorbs, ReasonUnion, Absorbs;
    if a.Text? && b.Text? { StringAbsorbsRight(a.text, b.text); }
    if a.Unknown? {
      JoinedReasons(a.reasons, if b.Unknown? then b.reasons else [Incompatible]);
    } else if b.Unknown? {
      JoinedReasons(b.reasons, [Incompatible]);
    }
  }

  /** After a join the accumulator absorbs the joined value. */
  lemma {:induction false} AbsorbsRight(a: AbstractValue, b: AbstractValue)
    requires Shape(false, a) && Shape(false, b)
    ensures Absorbs(Join(a, b), b)
    decreases b
  {
    if a.value == Bottom {
      AbsorbsItself(b);
    } else if b.value != Bottom {
      AssignedAbsorbsRight(a.value, b.value);
      LabelsAreLeastUpperBounds(a, b, a.trust, a.secrecy);
      JoinedProvenance(a.provenance, b.provenance);
    }
  }

  lemma {:induction false} AssignedAbsorbsRight(a: Value, b: Value)
    requires ValueShape(false, a) && ValueShape(false, b) && a != Bottom && b != Bottom
    ensures AssignedValue(a, b) != Bottom && ValueAbsorbs(AssignedValue(a, b), b)
    decreases b
  {
    hide JoinStrings, StringAbsorbs, ReasonUnion, Union, JoinTrust, JoinSecrecy, JoinTypes;
    if SameLength(a, b) {
      forall i | 0 <= i < |b.items| ensures Absorbs(Join(a.items[i], b.items[i]), b.items[i]) {
        AbsorbsRight(a.items[i], b.items[i]);
      }
    } else if a.Object? && b.Object? {
      var joined := AssignedValue(a, b);
      forall k | k in b.fields ensures k in joined.fields && Absorbs(joined.fields[k], b.fields[k]) {
        if k in a.fields { AbsorbsRight(a.fields[k], b.fields[k]); } else { AbsorbsItself(b.fields[k]); }
      }
    } else {
      FlatAbsorbsRight(a, b);
    }
  }

  lemma FlatAbsorbsLater(a: Value, b: Value, c: Value)
    requires ValueShape(false, a) && ValueShape(false, b) && ValueShape(false, c)
    requires a != Bottom && b != Bottom && c != Bottom && ValueAbsorbs(a, b)
    requires !SameLength(a, c) && !(a.Object? && c.Object?)
    ensures ValueAbsorbs(JoinFlat(a, c), b)
  {
    if a.Text? && c.Text? {
      StringAbsorbsLater(a.text, b.text, c.text);
    } else if a.Unknown? || c.Unknown? {
      UnknownAbsorbsLater(a, b, c);
    } else {
      KnownAbsorbsLater(a, b, c);
    }
  }

  lemma UnknownAbsorbsLater(a: Value, b: Value, c: Value)
    requires a != Bottom && b != Bottom && c != Bottom && ValueAbsorbs(a, b) && (a.Unknown? || c.Unknown?)
    ensures ValueAbsorbs(JoinFlat(a, c), b)
  {
    if a.Unknown? {
      JoinedReasons(a.reasons, if c.Unknown? then c.reasons else [Incompatible]);
    } else {
      JoinedReasons(c.reasons, [Incompatible]);
    }
    hide ReasonUnion;
  }

  lemma KnownAbsorbsLater(a: Value, b: Value, c: Value)
    requires a != Bottom && c != Bottom && !a.Unknown? && !c.Unknown? && !(a.Text? && c.Text?)
    requires !SameLength(a, c) && !(a.Object? && c.Object?)
    requires b != Bottom && ValueAbsorbs(a, b)
    ensures ValueAbsorbs(JoinFlat(a, c), b)
  {
    hide StringAbsorbs;
  }

  /** What is absorbed stays absorbed, whatever is joined later. */
  lemma {:induction false} AbsorbsLater(a: AbstractValue, b: AbstractValue, c: AbstractValue)
    requires Shape(false, a) && Shape(false, b) && Shape(false, c)
    requires Absorbs(a, b)
    ensures Absorbs(Join(a, c), b)
    decreases c
  {
    if b.value != Bottom && c.value != Bottom {
      AssignedAbsorbsLater(a.value, b.value, c.value);
      AssignedShape(a.value, c.value);
      LabelsAbsorbLater(a, b, c);
      JoinedProvenance(a.provenance, c.provenance);
    }
  }

  lemma LabelsAbsorbLater(a: AbstractValue, b: AbstractValue, c: AbstractValue)
    requires TrustLeq(b.trust, a.trust) && SecrecyLeq(b.secrecy, a.secrecy)
    ensures TrustLeq(b.trust, JoinTrust(a.trust, c.trust)) && SecrecyLeq(b.secrecy, JoinSecrecy(a.secrecy, c.secrecy))
  {
    if a.trust.UnknownTrust? && c.trust.UnknownTrust? { JoinedReasons(a.trust.reasons, c.trust.reasons); }
    if a.secrecy.UnknownSecrecy? && c.secrecy.UnknownSecrecy? {
      JoinedReasons(a.secrecy.reasons, c.secrecy.reasons);
    }
  }

  lemma {:induction false} AssignedAbsorbsLater(a: Value, b: Value, c: Value)
    requires ValueShape(false, a) && ValueShape(false, b) && ValueShape(false, c)
    requires a != Bottom && b != Bottom && c != Bottom && ValueAbsorbs(a, b)
    ensures ValueAbsorbs(AssignedValue(a, c), b)
    decreases c
  {
    if SameLength(a, c) {
      if b.List? {
        forall i | 0 <= i < |b.items| ensures Absorbs(Join(a.items[i], c.items[i]), b.items[i]) {
          AbsorbsLater(a.items[i], b.items[i], c.items[i]);
        }
      }
    } else if a.Object? && c.Object? {
      if b.Object? {
        var joined := AssignedValue(a, c);
        forall k | k in b.fields ensures k in joined.fields && Absorbs(joined.fields[k], b.fields[k]) {
          if k in c.fields { AbsorbsLater(a.fields[k], b.fields[k], c.fields[k]); }
        }
      }
    } else {
      FlatAbsorbsLater(a, b, c);
    }
  }

  // ----- on normal forms, absorbed means unchanged -----

  lemma LabelsUnchanged(a: AbstractValue, b: AbstractValue)
    requires TrustShape(a.trust) && SecrecyShape(a.secrecy) && Ascending(ProvenanceLess, a.provenance)
    ensures JoinTrust(a.trust, b.trust) == a.trust <==> TrustLeq(b.trust, a.trust)
    ensures JoinSecrecy(a.secrecy, b.secrecy) == a.secrecy <==> SecrecyLeq(b.secrecy, a.secrecy)
    ensures Union(ProvenanceLess, a.provenance, b.provenance) == a.provenance
      <==> forall x :: x in b.provenance ==> x in a.provenance
  {
    if a.trust.UnknownTrust? && b.trust.UnknownTrust? { ReasonsUnchanged(a.trust.reasons, b.trust.reasons); }
    if a.secrecy.UnknownSecrecy? && b.secrecy.UnknownSecrecy? {
      ReasonsUnchanged(a.secrecy.reasons, b.secrecy.reasons);
    }
    ProvenanceOrder();
    JoinedProvenance(a.provenance, b.provenance);
    if forall x :: x in b.provenance ==> x in a.provenance {
      AscendingUnique(ProvenanceLess, Union(ProvenanceLess, a.provenance, b.provenance), a.provenance);
    }
  }

  lemma ReasonsUnchanged(a: seq<Reason>, b: seq<Reason>)
    requires Ascending(ReasonLess, a)
    ensures ReasonUnion(a, b) == a <==> Within(b, a)
  {
    ReasonOrder();
    JoinedReasons(a, b);
    if Within(b, a) { AscendingUnique(ReasonLess, ReasonUnion(a, b), a); }
  }

  /** A join of normal values changes nothing exactly when the right one is absorbed. */
  lemma {:induction false} UnchangedExactly(a: AbstractValue, b: AbstractValue)
    requires Normal(a) && Normal(b)
    ensures Join(a, b) == a <==> Absorbs(a, b)
    decreases b
  {
    if a.value != Bottom && b.value != Bottom {
      LabelsUnchanged(a, b);
      AssignedUnchangedExactly(a.value, b.value);
    }
  }

  lemma {:induction false} AssignedUnchangedExactly(a: Value, b: Value)
    requires ValueShape(true, a) && ValueShape(true, b) && a != Bottom && b != Bottom
    ensures AssignedValue(a, b) == a <==> ValueAbsorbs(a, b)
    decreases b
  {
    if SameLength(a, b) {
      forall i | 0 <= i < |a.items|
        ensures Join(a.items[i], b.items[i]) == a.items[i] <==> Absorbs(a.items[i], b.items[i])
      {
        UnchangedExactly(a.items[i], b.items[i]);
      }
      ItemsUnchanged(a, b);
    } else if a.Object? && b.Object? {
      forall k | k in a.fields && k in b.fields
        ensures Join(a.fields[k], b.fields[k]) == a.fields[k] <==> Absorbs(a.fields[k], b.fields[k])
      {
        UnchangedExactly(a.fields[k], b.fields[k]);
      }
      FieldsUnchanged(a, b);
    } else {
      FlatUnchanged(a, b);
    }
  }

  lemma ItemsUnchanged(a: Value, b: Value)
    requires SameLength(a, b)
    requires forall i :: 0 <= i < |a.items| ==>
      (Join(a.items[i], b.items[i]) == a.items[i] <==> Absorbs(a.items[i], b.items[i]))
    ensures AssignedValue(a, b) == a <==> ValueAbsorbs(a, b)
  {
    hide Join, Absorbs;
    var joined := AssignedValue(a, b);
    assert forall i :: 0 <= i < |a.items| ==> joined.items[i] == Join(a.items[i], b.items[i]);
    if ValueAbsorbs(a, b) { assert joined.items == a.items; }
  }

  lemma FieldsUnchanged(a: Value, b: Value)
    requires a.Object? && b.Object?
    requires forall k :: k in a.fields && k in b.fields ==>
      (Join(a.fields[k], b.fields[k]) == a.fields[k] <==> Absorbs(a.fields[k], b.fields[k]))
    ensures AssignedValue(a, b) == a <==> ValueAbsorbs(a, b)
  {
    hide Join, Absorbs;
    var joined := AssignedValue(a, b);
    if ValueAbsorbs(a, b) { assert joined.fields == a.fields; }
    if joined == a { assert forall k :: k in b.fields ==> k in joined.fields; }
  }

  lemma FlatUnchanged(a: Value, b: Value)
    requires ValueShape(true, a) && ValueShape(true, b) && a != Bottom && b != Bottom
    requires !SameLength(a, b) && !(a.Object? && b.Object?)
    ensures AssignedValue(a, b) == a <==> ValueAbsorbs(a, b)
  {
    hide JoinStrings, StringAbsorbs, ReasonUnion, Absorbs;
    if a.Text? && b.Text? {
      StringUnchanged(a.text, b.text);
    } else if a.Unknown? {
      ReasonsUnchanged(a.reasons, if b.Unknown? then b.reasons else [Incompatible]);
    }
  }

  // ----- leaving the normal form -----

  /** Somewhere the join takes the prefix of two texts that clash on their first byte. */
  predicate Clash(a: AbstractValue, b: AbstractValue)
    decreases b
  {
    if a.value.List? && b.value.List? then
      |a.value.items| == |b.value.items|
      && exists i :: 0 <= i < |a.value.items| && Clash(a.value.items[i], b.value.items[i])
    else if a.value.Object? && b.value.Object? then
      exists k :: k in a.value.fields && k in b.value.fields && Clash(a.value.fields[k], b.value.fields[k])
    else a.value.Text? && b.value.Text? && StringClash(a.value.text, b.value.text)
  }

  /** The join of normal values is normal exactly when no prefix clashes. */
  lemma {:induction false} NormalExactly(a: AbstractValue, b: AbstractValue)
    requires Normal(a) && Normal(b)
    ensures Normal(Join(a, b)) <==> !Clash(a, b)
    decreases b
  {
    hide Union, JoinTrust, JoinSecrecy, JoinTypes, JoinStrings, StringClash;
    NormalIsShape(a);
    NormalIsShape(b);
    JoinShape(a, b);
    if a.value == Bottom || b.value == Bottom {
      return;
    }
    var joined := AssignedValue(a.value, b.value);
    assert ValueShape(true, a.value) && ValueShape(true, b.value);
    assert Normal(Join(a, b)) <==> ValueShape(true, joined);
    if SameLength(a.value, b.value) {
      forall i | 0 <= i < |a.value.items|
        ensures Normal(joined.items[i]) <==> !Clash(a.value.items[i], b.value.items[i])
      {
        NormalExactly(a.value.items[i], b.value.items[i]);
      }
    } else if a.value.Object? && b.value.Object? {
      forall k | k in a.value.fields && k in b.value.fields
        ensures Normal(joined.fields[k]) <==> !Clash(a.value.fields[k], b.value.fields[k])
      {
        NormalExactly(a.value.fields[k], b.value.fields[k]);
      }
      if Clash(a, b) {
        var k :| k in a.value.fields && k in b.value.fields && Clash(a.value.fields[k], b.value.fields[k]);
        assert k in joined.fields && !Normal(joined.fields[k]);
      }
    } else if a.value.Text? && b.value.Text? {
      StringNormalExactly(a.value.text, b.value.text);
    }
  }

  lemma {:induction false} NormalIsShape(a: AbstractValue)
    requires Normal(a)
    ensures Shape(false, a)
  {
    assert ValueShape(true, a.value);
    if a.value.List? {
      forall i | 0 <= i < |a.value.items| ensures Shape(false, a.value.items[i]) { NormalIsShape(a.value.items[i]); }
    } else if a.value.Object? {
      forall k | k in a.value.fields ensures Shape(false, a.value.fields[k]) { NormalIsShape(a.value.fields[k]); }
    }
    assert ValueShape(false, a.value);
  }

  // ----- whole runs -----

  /** The accumulator after joining a sequence of values from left to right. */
  function Fold(acc: AbstractValue, values: seq<AbstractValue>): AbstractValue
    decreases |values|
  {
    if values == [] then acc else Fold(Join(acc, values[0]), values[1..])
  }

  lemma {:induction false} FoldShape(acc: AbstractValue, values: seq<AbstractValue>)
    requires Shape(false, acc) && forall v :: v in values ==> Shape(false, v)
    ensures Shape(false, Fold(acc, values))
    decreases |values|
  {
    if values != [] {
      JoinShape(acc, values[0]);
      FoldShape(Join(acc, values[0]), values[1..]);
    }
  }

  lemma {:induction false} FoldAbsorbsEarlier(acc: AbstractValue, values: seq<AbstractValue>, b: AbstractValue)
    requires Shape(false, acc) && Shape(false, b) && forall v :: v in values ==> Shape(false, v)
    requires Absorbs(acc, b)
    ensures Absorbs(Fold(acc, values), b)
    decreases |values|
  {
    if values != [] {
      JoinShape(acc, values[0]);
      AbsorbsLater(acc, b, values[0]);
      FoldAbsorbsEarlier(Join(acc, values[0]), values[1..], b);
    }
  }

  lemma {:induction false} FoldAbsorbsAll(acc: AbstractValue, values: seq<AbstractValue>, i: nat)
    requires Shape(false, acc) && i < |values| && forall v :: v in values ==> Shape(false, v)
    ensures Absorbs(Fold(acc, values), values[i])
    decreases |values|
  {
    JoinShape(acc, values[0]);
    if i == 0 {
      AbsorbsRight(acc, values[0]);
      FoldAbsorbsEarlier(Join(acc, values[0]), values[1..], values[0]);
    } else {
      FoldAbsorbsAll(Join(acc, values[0]), values[1..], i - 1);
    }
  }

  /** A second pass over the values, in any order, would report no change. */
  ghost predicate Settled(acc: AbstractValue, values: seq<AbstractValue>) {
    forall v :: v in values ==> Join(acc, v) == acc
  }

  // The converse needs to know where an empty prefix came from, so positions inside a value get names.

  datatype Path = Here | Item(index: nat, rest: Path) | Field(key: string, rest: Path)

  predicate EmptyPrefixAt(v: AbstractValue, path: Path)
    decreases path
  {
    match path
    case Here => v.value.Text? && v.value.text.Affix? && v.value.text.prefix == Some("")
    case Item(i, rest) => v.value.List? && i < |v.value.items| && EmptyPrefixAt(v.value.items[i], rest)
    case Field(k, rest) => v.value.Object? && k in v.value.fields && EmptyPrefixAt(v.value.fields[k], rest)
  }

  predicate TextAt(v: AbstractValue, path: Path)
    decreases path
  {
    match path
    case Here => v.value.Text? && (v.value.text.Constants? || v.value.text.Affix?)
    case Item(i, rest) => v.value.List? && i < |v.value.items| && TextAt(v.value.items[i], rest)
    case Field(k, rest) => v.value.Object? && k in v.value.fields && TextAt(v.value.fields[k], rest)
  }

  lemma {:induction false} NotNormalSomewhere(v: AbstractValue) returns (path: Path)
    requires Shape(false, v) && !Normal(v)
    ensures EmptyPrefixAt(v, path)
    decreases v
  {
    assert ValueShape(false, v.value) && !ValueShape(true, v.value);
    if v.value.List? {
      var i :| 0 <= i < |v.value.items| && !Normal(v.value.items[i]);
      var rest := NotNormalSomewhere(v.value.items[i]);
      path := Item(i, rest);
    } else if v.value.Object? {
      var k :| k in v.value.fields && !Normal(v.value.fields[k]);
      var rest := NotNormalSomewhere(v.value.fields[k]);
      path := Field(k, rest);
    } else {
      path := Here;
    }
  }

  lemma {:induction false} NormalHasNoEmptyPrefix(v: AbstractValue, path: Path)
    requires Normal(v)
    ensures !EmptyPrefixAt(v, path)
    decreases path
  {
    assert ValueShape(true, v.value);
    match path
    case Here =>
    case Item(i, rest) => if v.value.List? && i < |v.value.items| { NormalHasNoEmptyPrefix(v.value.items[i], rest); }
    case Field(k, rest) =>
      if v.value.Object? && k in v.value.fields { NormalHasNoEmptyPrefix(v.value.fields[k], rest); }
  }

  /** An empty prefix in a join was there before or is due to a text of the joined value. */
  lemma {:induction false} EmptyPrefixOrigin(a: AbstractValue, b: AbstractValue, path: Path)
    requires Normal(b) && EmptyPrefixAt(Join(a, b), path)
    ensures TextAt(b, path) || EmptyPrefixAt(a, path)
    decreases path
  {
    if a.value == Bottom {
      NormalHasNoEmptyPrefix(b, path);
    } else if b.value != Bottom {
      assert Join(a, b).value == AssignedValue(a.value, b.value);
      assert ValueShape(true, b.value);
      match path
      case Here =>
      case Item(i, rest) =>
        EmptyPrefixOrigin(a.value.items[i], b.value.items[i], rest);
      case Field(k, rest) =>
        if k !in a.value.fields {
          NormalHasNoEmptyPrefix(b.value.fields[k], rest);
        } else if k in b.value.fields {
          EmptyPrefixOrigin(a.value.fields[k], b.value.fields[k], rest);
        }
    }
  }

  lemma {:induction false} FoldEmptyPrefixOrigin(acc: AbstractValue, values: seq<AbstractValue>, path: Path)
    returns (i: nat)
    requires Normal(acc) && forall v :: v in values ==> Normal(v)
    requires EmptyPrefixAt(Fold(acc, values), path)
    ensures i < |values| && TextAt(values[i], path)
    decreases |values|
  {
    if values == [] {
      NormalHasNoEmptyPrefix(acc, path);
    } else {
      var n := |values| - 1;
      FoldLast(acc, values);
      EmptyPrefixOrigin(Fold(acc, values[..n]), values[n], path);
      if TextAt(values[n], path) { return n; }
      i := FoldEmptyPrefixOrigin(acc, values[..n], path);
    }
  }

  lemma {:induction false} FoldLast(acc: AbstractValue, values: seq<AbstractValue>)
    requires values != []
    ensures Fold(acc, values) == Join(Fold(acc, values[..|values| - 1]), values[|values| - 1])
    decreases |values|
  {
    if |values| > 1 {
      FoldLast(Join(acc, values[0]), values[1..]);
      assert values[1..][..|values| - 2] == values[..|values| - 1][1..];
    }
  }

  /** Joining a text into an empty prefix drops that prefix. */
  lemma {:induction false} EmptyPrefixUnstable(a: AbstractValue, b: AbstractValue, path: Path)
    requires EmptyPrefixAt(a, path) && TextAt(b, path)
    ensures Join(a, b) != a
    decreases path
  {
    assert Join(a, b).value == AssignedValue(a.value, b.value);
    match path
    case Here =>
      var t := b.value.text;
      if t.Constants? && |t.values| == 1 { CommonPrefixFacts(t.values[0], ""); }
      if t.Affix? && t.prefix.Some? { CommonPrefixFacts("", t.prefix.value); }
    case Item(i, rest) =>
      EmptyPrefixUnstable(a.value.items[i], b.value.items[i], rest);
      if SameLength(a.value, b.value) {
        assert Join(a, b).value.items[i] == Join(a.value.items[i], b.value.items[i]);
      }
    case Field(k, rest) =>
      EmptyPrefixUnstable(a.value.fields[k], b.value.fields[k], rest);
      assert Join(a, b).value.fields[k] == Join(a.value.fields[k], b.value.fields[k]);
  }

  /** One pass is enough exactly when the accumulated value is in normal form. */
  lemma OnePassExactly(acc: AbstractValue, values: seq<AbstractValue>)
    requires Normal(acc) && forall v :: v in values ==> Normal(v)
    ensures Settled(Fold(acc, values), values) <==> Normal(Fold(acc, values))
  {
    var final := Fold(acc, values);
    NormalIsShape(acc);
    forall v | v in values ensures Shape(false, v) { NormalIsShape(v); }
    FoldShape(acc, values);
    if Normal(final) {
      forall v | v in values ensures Join(final, v) == final {
        var i: nat :| i < |values| && values[i] == v;
        FoldAbsorbsAll(acc, values, i);
        UnchangedExactly(final, v);
      }
    } else {
      var path := NotNormalSomewhere(final);
      var i := FoldEmptyPrefixOrigin(acc, values, path);
      EmptyPrefixUnstable(final, values[i], path);
    }
  }

  /** No step of the run clashes. */
  predicate ClashFree(acc: AbstractValue, values: seq<AbstractValue>)
    decreases |values|
  {
    values == [] || (!Clash(acc, values[0]) && ClashFree(Join(acc, values[0]), values[1..]))
  }

  lemma {:induction false} ClashFreeNormal(acc: AbstractValue, values: seq<AbstractValue>)
    requires Normal(acc) && forall v :: v in values ==> Normal(v)
    requires ClashFree(acc, values)
    ensures Normal(Fold(acc, values))
    decreases |values|
  {
    if values != [] {
      NormalExactly(acc, values[0]);
      ClashFreeNormal(Join(acc, values[0]), values[1..]);
    }
  }

  /** For one join, a repetition reports no change exactly when no prefix clashes. */
  lemma RepeatExactly(a: AbstractValue, b: AbstractValue)
    requires Normal(a) && Normal(b)
    ensures Join(Join(a, b), b) == Join(a, b) <==> !Clash(a, b)
  {
    OnePassExactly(a, [b]);
    NormalExactly(a, b);
    assert Fold(Join(a, b), []) == Join(a, b);
    assert [b][0] == b && [b][1..] == [];
  }

  // ----- the condition on the joined values -----

  lemma StringClashJoin(a: StringValue, b: StringValue, v: StringValue)
    requires StringShape(true, a) && StringShape(true, b) && StringShape(true, v)
    requires !StringClash(a, b) && !StringClash(a, v) && !StringClash(b, v)
    ensures !StringClash(JoinStrings(a, b), v)
  {
    if a.Constants? && b.Constants? {
      StringOrder();
      UnionMeaning(StringLess, a.values, b.values);
      var u := Union(StringLess, a.values, b.values);
      if |u| == 1 {
        assert a.values[0] in u && b.values[0] in u;
        SingletonSubset(u, a.values);
      }
    } else if a.Constants? && b.Affix? && |a.values| == 1 && b.prefix.Some? {
      CommonPrefixFacts(a.values[0], b.prefix.value);
    } else if a.Affix? && b.Constants? && |b.values| == 1 && a.prefix.Some? {
      CommonPrefixFacts(b.values[0], a.prefix.value);
    } else if a.Affix? && b.Affix? && a.prefix.Some? && b.prefix.Some? {
      CommonPrefixFacts(a.prefix.value, b.prefix.value);
    }
  }

  /** Values that clash neither with each other nor with `v` have a join that does not clash with `v`. */
  lemma {:induction false} ClashJoin(a: AbstractValue, b: AbstractValue, v: AbstractValue)
    requires Normal(a) && Normal(b) && Normal(v)
    requires !Clash(a, b) && !Clash(a, v) && !Clash(b, v)
    ensures !Clash(Join(a, b), v)
    decreases v
  {
    hide Union, JoinTrust, JoinSecrecy, JoinTypes, JoinStrings, StringClash;
    if a.value == Bottom || b.value == Bottom { return; }
    var joined := AssignedValue(a.value, b.value);
    assert Join(a, b).value == joined;
    assert ValueShape(true, a.value) && ValueShape(true, b.value) && ValueShape(true, v.value);
    if SameLength(a.value, b.value) && SameLength(joined, v.value) {
      forall i | 0 <= i < |joined.items| ensures !Clash(joined.items[i], v.value.items[i]) {
        ClashJoin(a.value.items[i], b.value.items[i], v.value.items[i]);
      }
    } else if a.value.Object? && b.value.Object? && v.value.Object? {
      forall k | k in joined.fields && k in v.value.fields ensures !Clash(joined.fields[k], v.value.fields[k]) {
        if k in a.value.fields && k in b.value.fields {
          ClashJoin(a.value.fields[k], b.value.fields[k], v.value.fields[k]);
        }
      }
    } else if a.value.Text? && b.value.Text? && v.value.Text? {
      StringClashJoin(a.value.text, b.value.text, v.value.text);
    }
  }

  ghost predicate NoClash(s: iset<AbstractValue>) {
    forall u, w :: u in s && w in s ==> !Clash(u, w)
  }

  lemma {:induction false} NoClashRun(s: iset<AbstractValue>, acc: AbstractValue, run: seq<AbstractValue>)
    requires (forall v :: v in s ==> Normal(v)) && NoClash(s)
    requires Normal(acc) && forall v :: v in s ==> !Clash(acc, v)
    requires forall v :: v in run ==> v in s
    ensures ClashFree(acc, run)
    decreases |run|
  {
    if run != [] {
      NormalExactly(acc, run[0]);
      forall v | v in s ensures !Clash(Join(acc, run[0]), v) { ClashJoin(acc, run[0], v); }
      NoClashRun(s, Join(acc, run[0]), run[1..]);
    }
  }

  /** After joining any finite sequence of values of `s`, a second pass changes nothing. */
  ghost predicate OnePassEnough(s: iset<AbstractValue>) {
    forall run: seq<AbstractValue> :: (forall v :: v in run ==> v in s) ==> Settled(Fold(Default, run), run)
  }

  /** One pass is enough for every run over a set of normal values exactly when no two of them clash. */
  lemma OnePassInputs(s: iset<AbstractValue>)
    requires forall v :: v in s ==> Normal(v)
    ensures OnePassEnough(s) <==> NoClash(s)
  {
    if NoClash(s) {
      forall run: seq<AbstractValue> | forall v :: v in run ==> v in s
        ensures Settled(Fold(Default, run), run)
      {
        NoClashRun(s, Default, run);
        ClashFreeNormal(Default, run);
        OnePassExactly(Default, run);
      }
    } else {
      var u, w :| u in s && w in s && Clash(u, w);
      RepeatExactly(u, w);
      assert [u, w][1..] == [w] && [w][1..] == [];
      assert Fold(Default, [u, w]) == Fold(u, [w]) == Fold(Join(u, w), []) == Join(u, w);
      assert w in [u, w] && !Settled(Join(u, w), [u, w]);
    }
  }

  /** A settled accumulator survives a second pass over any selection of the values in any order. */
  lemma {:induction false} SecondPass(acc: AbstractValue, values: seq<AbstractValue>, again: seq<AbstractValue>)
    requires Settled(acc, values) && forall v :: v in again ==> v in values
    ensures Fold(acc, again) == acc
    decreases |again|
  {
    if again != [] { SecondPass(acc, values, again[1..]); }
  }

  function TextValue(text: StringValue): AbstractValue {
    AbstractValue(StringType, Text(text), Trusted, Public, [])
  }

  /** The two words start with different letters that share their first byte, 0xC3: the joined value
      carries an empty prefix, and joining the second word once more still changes it. */
  lemma ClashExample()
    ensures var a, b := TextValue(Affix(Some("\U{00E9}t\U{00E9}"), None)), TextValue(Constants(["\U{00E8}re"]));
      && Normal(a) && Normal(b)
      && Join(a, b) == TextValue(Affix(Some(""), None))
      && Join(Join(a, b), b) == TextValue(AnyString)
  {
    hide CommonPrefix, Union, Utf8;
    var p, w := "\U{00E9}t\U{00E9}", "\U{00E8}re";
    ClashingPair(w, p);
    assert JoinStrings(Affix(Some(p), None), Constants([w])) == Affix(Some(""), None);
    assert JoinStrings(Affix(Some(""), None), Constants([w])) == AnyString;
    hide JoinStrings;
    JoinTexts(Affix(Some(p), None), Constants([w]));
    JoinTexts(Affix(Some(""), None), Constants([w]));
  }

  lemma JoinTexts(a: StringValue, b: StringValue)
    ensures Join(TextValue(a), TextValue(b)) == TextValue(JoinStrings(a, b))
  {
    assert Union(ProvenanceLess, [], []) == [];
    hide JoinStrings, Union;
  }

  lemma ClashingPair(w: string, p: string)
    requires w != [] && p != [] && w[0] == '\U{00E8}' && p[0] == '\U{00E9}'
    ensures JoinPrefixes(Some(w), Some(p)) == Some("") && JoinPrefixes(Some(w), Some("")) == None
  {
    assert LeadByteClash(w, p) by { assert Utf8(p[0])[0] == Utf8(w[0])[0] == 0xC3; }
    CommonPrefixFacts(w, p);
    CommonPrefixFacts(w, "");
  }
}
