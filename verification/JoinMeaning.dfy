/** Least upper bounds of joins (src/domain/abstract_value.rs). */
module JoinMeaning {
  import opened Orders
  import opened Outcomes
  import opened Text
  import opened AbstractValues
  import opened JoinSound
  import opened JoinStable
  import opened JoinOrder

  // ----- the least upper bound -----

  /** Somewhere inside, two different single constants lie under one affix. */
  predicate SplitUnderAffix(bound: AbstractValue, a: AbstractValue, b: AbstractValue)
    decreases a
  {
    match (bound.value, a.value, b.value)
    case (List(x), List(y), List(z)) =>
      |x| == |y| == |z| && exists i :: 0 <= i < |y| && SplitUnderAffix(x[i], y[i], z[i])
    case (Object(x), Object(y), Object(z)) =>
      exists k :: k in x && k in y && k in z && SplitUnderAffix(x[k], y[k], z[k])
    case (Text(s), Text(t), Text(u)) => s.Affix? && t.Constants? && u.Constants? && t != u
    case _ => false
  }

  lemma SplitMatters(bound: StringValue, s: StringValue, t: StringValue)
    requires StringShape(true, bound) && StringShape(true, s) && StringShape(true, t)
    requires StringAbsorbs(bound, s) && StringAbsorbs(bound, t)
    ensures StringOrderMatters(bound, s, t) <==> bound.Affix? && s.Constants? && t.Constants? && s != t
  {
    if bound.Affix? && s.Constants? && t.Constants? && s != t {
      if bound.prefix.Some? {
        assert SameStart(PrefixOf(s), PrefixOf(t), bound.prefix);
      } else {
        LastOfSuffix(s.values[0], bound.suffix.value);
        LastOfSuffix(t.values[0], bound.suffix.value);
        assert SameLast(SuffixOf(s), SuffixOf(t), bound.suffix);
      }
    }
  }

  lemma LastOfSuffix(s: string, suffix: string)
    requires EndsWith(s, suffix) && suffix != []
    ensures s != [] && s[|s| - 1] == suffix[|suffix| - 1]
  {
    assert s[|s| - |suffix|..][|suffix| - 1] == s[|s| - 1];
  }

  lemma {:induction false} SplitExactly(bound: AbstractValue, a: AbstractValue, b: AbstractValue)
    requires Normal(bound) && Normal(a) && Normal(b) && Absorbs(bound, a) && Absorbs(bound, b)
    ensures OrderMatters(bound, a, b) <==> SplitUnderAffix(bound, a, b)
    decreases a
  {
    hide StringOrderMatters, StringShape, StringAbsorbs;
    if a.value == Bottom || b.value == Bottom { return; }
    assert ValueShape(true, bound.value) && ValueShape(true, a.value) && ValueShape(true, b.value);
    if SameLength(bound.value, a.value) && SameLength(a.value, b.value) {
      var (x, y, z) := (bound.value.items, a.value.items, b.value.items);
      forall i | 0 <= i < |y| ensures OrderMatters(x[i], y[i], z[i]) <==> SplitUnderAffix(x[i], y[i], z[i]) {
        SplitExactly(x[i], y[i], z[i]);
      }
    } else if bound.value.Object? && a.value.Object? && b.value.Object? {
      var (x, y, z) := (bound.value.fields, a.value.fields, b.value.fields);
      forall k | k in x && k in y && k in z
        ensures OrderMatters(x[k], y[k], z[k]) <==> SplitUnderAffix(x[k], y[k], z[k])
      {
        SplitExactly(x[k], y[k], z[k]);
      }
    } else if bound.value.Text? && a.value.Text? && b.value.Text? {
      SplitMatters(bound.value.text, a.value.text, b.value.text);
    }
  }

  /** The join accounts for both operands. Any other value that does so accounts for their join, exactly
      unless its affix stands above two different constants, which the join keeps apart. */
  lemma LeastExactly(a: AbstractValue, b: AbstractValue, bound: AbstractValue)
    requires Normal(a) && Normal(b) && Normal(bound) && !Clash(a, b)
    ensures Absorbs(Join(a, b), a) && Absorbs(Join(a, b), b)
    ensures Absorbs(bound, a) && Absorbs(bound, b) ==>
      (Absorbs(bound, Join(a, b)) <==> !SplitUnderAffix(bound, a, b))
  {
    hide Join, Clash, Absorbs, OrderMatters, SplitUnderAffix;
    NormalIsShape(a);
    NormalIsShape(b);
    AbsorbsItself(a);
    AbsorbsLater(a, a, b);
    AbsorbsRight(a, b);
    if Absorbs(bound, a) && Absorbs(bound, b) {
      NormalExactly(a, b);
      NormalExactly(bound, a);
      NormalExactly(bound, b);
      UnchangedExactly(bound, a);
      UnchangedExactly(bound, b);
      UnchangedExactly(bound, Join(a, b));
      JoinAssociatesExactly(bound, a, b);
      SplitExactly(bound, a, b);
    }
  }

  // ----- the limit of eight constants -----

  lemma {:induction false} SortedSize<T>(less: (T, T) -> bool, s: seq<T>)
    requires Ascending(less, s) && forall x :: !less(x, x)
    ensures |s| == |set x | x in s|
  {
    if s != [] {
      var last := |s| - 1;
      var init := s[..last];
      SortedSize(less, init);
      assert s[last] !in init;
      assert (set x | x in s) == (set x | x in init) + {s[last]};
    }
  }

  lemma UnionSize(a: seq<string>, b: seq<string>)
    ensures var values := Union(StringLess, a, b);
      Ascending(StringLess, values) && (set x | x in values) == (set x | x in a) + (set x | x in b)
    ensures |Union(StringLess, a, b)| == |(set x | x in a) + (set x | x in b)|
  {
    hide Union;
    StringOrder();
    UnionMeaning(StringLess, a, b);
    SortedSize(StringLess, Union(StringLess, a, b));
    assert (set x | x in Union(StringLess, a, b)) == (set x | x in a) + (set x | x in b);
  }

  /** Two sets of constants join to their sorted union while it has at most eight elements. */
  lemma ConstantsExactly(a: seq<string>, b: seq<string>)
    ensures var union := (set x | x in a) + (set x | x in b);
      var joined := JoinStrings(Constants(a), Constants(b));
      if |union| <= 8 then
        joined.Constants? && Ascending(StringLess, joined.values) && (set x | x in joined.values) == union
      else joined == AnyString
  {
    UnionSize(a, b);
    hide Union, Ascending;
  }

  // ----- unknown values -----

  /** A join is unknown exactly for unknown operands or different kinds; it has the reasons of both operands,
      and one more unless both are unknown. */
  lemma ReasonsExactly(a: Value, b: Value)
    requires a != Bottom && b != Bottom
    ensures var joined := AssignedValue(a, b);
      && (joined.Unknown? <==> a.Unknown? || b.Unknown? || KindOf(a) != KindOf(b))
      && (joined.Unknown? ==> Ascending(ReasonLess, joined.reasons) && forall r :: r in joined.reasons <==>
          || (a.Unknown? && r in a.reasons)
          || (b.Unknown? && r in b.reasons)
          || (!(a.Unknown? && b.Unknown?) && r == UnsupportedSyntax("incompatible value join")))
  {
    hide AssignedValue, KindOf;
    UnknownJoin(a, b);
  }

  // ----- the orders, field by field -----

  /** Reasons are ordered by their kind, then by their text. */
  lemma ReasonsOrdered(a: Reason, b: Reason)
    ensures ReasonLess(a, b) <==>
      match a
      case UnsupportedSyntax(x) => !b.UnsupportedSyntax? || StringLess(x, b.detail)
      case ExternalState(x) => !b.UnsupportedSyntax? && (!b.ExternalState? || StringLess(x, b.detail))
      case UnresolvedDependency(x) =>
        !b.UnsupportedSyntax? && !b.ExternalState? && (!b.UnresolvedDependency? || StringLess(x, b.detail))
      case RecursiveCall(x) =>
        || b.DynamicString? || b.PhaseUnavailable? || b.MissingEvidence? || b.ResourceLimit?
        || (b.RecursiveCall? && StringLess(x, b.detail))
      case DynamicString(x) =>
        || b.PhaseUnavailable? || b.MissingEvidence? || b.ResourceLimit?
        || (b.DynamicString? && StringLess(x, b.detail))
      case PhaseUnavailable(x) =>
        b.MissingEvidence? || b.ResourceLimit? || (b.PhaseUnavailable? && StringLess(x, b.detail))
      case MissingEvidence(x) => b.ResourceLimit? || (b.MissingEvidence? && StringLess(x, b.detail))
      case ResourceLimit(x) => b.ResourceLimit? && StringLess(x, b.detail)
  {}

  function Numbers(s: Span): seq<nat> {
    [s.source, s.start.byte, s.start.line, s.start.column, s.stop.byte, s.stop.line, s.stop.column]
  }

  /** The first index at which two sequences of equal length differ has the smaller number on the left. */
  ghost predicate FirstSmaller(s: seq<nat>, t: seq<nat>) {
    exists i :: 0 <= i < |s| == |t| && s[i] < t[i] && forall j :: 0 <= j < i ==> s[j] == t[j]
  }

  lemma FirstNumber(a: Span, b: Span, i: nat)
    requires i < 7 && Numbers(a)[i] < Numbers(b)[i]
    requires forall j :: 0 <= j < i ==> Numbers(a)[j] == Numbers(b)[j]
    ensures SpanLess(a, b)
  {
    var s, t := Numbers(a), Numbers(b);
    assert i > 0 ==> s[0] == t[0];
    assert i > 1 ==> s[1] == t[1];
    assert i > 2 ==> s[2] == t[2];
    assert i > 3 ==> s[3] == t[3];
    assert i > 4 ==> s[4] == t[4];
    assert i > 5 ==> s[5] == t[5];
  }

  lemma SpansOrdered(a: Span, b: Span)
    ensures SpanLess(a, b) <==> FirstSmaller(Numbers(a), Numbers(b))
  {
    var s, t := Numbers(a), Numbers(b);
    assert |s| == |t| == 7;
    if SpanLess(a, b) {
      var i := if s[0] != t[0] then 0 else if s[1] != t[1] then 1 else if s[2] != t[2] then 2
        else if s[3] != t[3] then 3 else if s[4] != t[4] then 4 else if s[5] != t[5] then 5 else 6;
      assert s[i] < t[i] && forall j :: 0 <= j < i ==> s[j] == t[j];
    } else if i :| 0 <= i < |s| && s[i] < t[i] && forall j :: 0 <= j < i ==> s[j] == t[j] {
      FirstNumber(a, b, i);
    }
  }

  /** Provenance is ordered by its origin, then by the numbers of its span from left to right, then by its
      operation. */
  lemma ProvenanceOrdered(a: Provenance, b: Provenance)
    ensures ProvenanceLess(a, b) <==>
      || StringLess(a.origin, b.origin)
      || (a.origin == b.origin && FirstSmaller(Numbers(a.span), Numbers(b.span)))
      || (a.origin == b.origin && a.span == b.span && StringLess(a.operation, b.operation))
  {
    SpansOrdered(a.span, b.span);
  }
}
