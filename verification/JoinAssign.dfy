/** The in-place join and its `changed` flag (src/domain/abstract_value.rs). */
module JoinAssign {
  import opened Orders
  import opened AbstractValues

  // ----- the merge of two sorted vectors -----

  function Merge<T(==)>(less: (T, T) -> bool, l: seq<T>, r: seq<T>): seq<T>
    decreases |l| + |r|
  {
    if l == [] then r
    else if r == [] then l
    else if less(l[0], r[0]) then [l[0]] + Merge(less, l[1..], r)
    else if l[0] == r[0] then [l[0]] + Merge(less, l[1..], r[1..])
    else [r[0]] + Merge(less, l, r[1..])
  }

  lemma {:induction false} MergeMeaning<T(!new)>(less: (T, T) -> bool, l: seq<T>, r: seq<T>)
    requires Total(less) && Ascending(less, l) && Ascending(less, r)
    ensures Ascending(less, Merge(less, l, r))
    ensures forall x :: x in Merge(less, l, r) <==> x in l || x in r
    decreases |l| + |r|
  {
    if l != [] && r != [] {
      var (first, lt, rt) :=
        if less(l[0], r[0]) then (l[0], l[1..], r)
        else if l[0] == r[0] then (l[0], l[1..], r[1..])
        else (r[0], l, r[1..]);
      MergeMeaning(less, lt, rt);
      var tail := Merge(less, lt, rt);
      assert Merge(less, l, r) == [first] + tail;
      forall x | x in tail ensures less(first, x) {
        assert x in lt || x in rt;
      }
      forall i, j | 0 <= i < j < |tail| + 1 ensures less(([first] + tail)[i], ([first] + tail)[j]) {
        assert tail[j - 1] in tail;
      }
      assert forall x :: x in l <==> x == l[0] || x in l[1..];
      assert forall x :: x in r <==> x == r[0] || x in r[1..];
    }
  }

  lemma MergeIsUnion<T(!new)>(less: (T, T) -> bool, l: seq<T>, r: seq<T>)
    requires Total(less)
    ensures Merge(less, SortedUnique(less, l), SortedUnique(less, r)) == Union(less, l, r)
  {
    SortedUniqueMeaning(less, l);
    SortedUniqueMeaning(less, r);
    MergeMeaning(less, SortedUnique(less, l), SortedUnique(less, r));
    UnionMeaning(less, l, r);
    AscendingUnique(less, Merge(less, SortedUnique(less, l), SortedUnique(less, r)), Union(less, l, r));
  }

  /** A sorted subset is no longer than its superset, and as long only when equal. */
  lemma {:induction false} SortedSubset<T(!new)>(less: (T, T) -> bool, s: seq<T>, t: seq<T>)
    requires Total(less) && Ascending(less, s) && Ascending(less, t)
    requires forall x :: x in s ==> x in t
    ensures |s| <= |t| && (|s| == |t| ==> s == t)
    decreases |t|
  {
    if s != [] {
      assert s[0] in t;
      assert forall x :: x in t <==> x == t[0] || x in t[1..];
      assert forall x :: x in s <==> x == s[0] || x in s[1..];
      if s[0] == t[0] {
        SortedSubset(less, s[1..], t[1..]);
        assert s == [s[0]] + s[1..] && t == [t[0]] + t[1..];
      } else {
        SortedSubset(less, s, t[1..]);
      }
    }
  }

  /** `windows(2).all(..)`: every element is less than its successor. */
  predicate AdjacentAscending<T>(less: (T, T) -> bool, s: seq<T>) {
    forall i :: 0 <= i < |s| - 1 ==> less(s[i], s[i + 1])
  }

  lemma {:induction false} AdjacentIsAscending<T(!new)>(less: (T, T) -> bool, s: seq<T>)
    requires Total(less) && AdjacentAscending(less, s)
    ensures Ascending(less, s)
    decreases |s|
  {
    if |s| > 1 {
      var t := s[..|s| - 1];
      AdjacentIsAscending(less, t);
      forall i | 0 <= i < |s| - 1 ensures less(s[i], s[|s| - 1]) {
        assert less(s[|s| - 2], s[|s| - 2 + 1]);
        if i < |s| - 2 { assert less(t[i], t[|s| - 2]); }
      }
      forall i, j | 0 <= i < j < |s| ensures less(s[i], s[j]) {
        if j < |s| - 1 { assert less(t[i], t[j]); }
      }
    }
  }

  lemma AppendAssociates<T>(s: seq<T>, x: T, t: seq<T>)
    ensures (s + [x]) + t == s + ([x] + t)
  {}

  method MergeSorted<T(==)>(less: (T, T) -> bool, l: seq<T>, r: seq<T>) returns (merged: seq<T>)
    ensures merged == Merge(less, l, r)
  {
    merged := [];
    var i, j := 0, 0;
    while i < |l| && j < |r|
      invariant i <= |l| && j <= |r|
      invariant merged + Merge(less, l[i..], r[j..]) == Merge(less, l, r)
      decreases |l| + |r| - i - j
    {
      if less(l[i], r[j]) {
        AppendAssociates(merged, l[i], Merge(less, l[i + 1..], r[j..]));
        merged := merged + [l[i]];
        i := i + 1;
      } else if l[i] == r[j] {
        AppendAssociates(merged, l[i], Merge(less, l[i + 1..], r[j + 1..]));
        merged := merged + [l[i]];
        i := i + 1;
        j := j + 1;
      } else {
        AppendAssociates(merged, r[j], Merge(less, l[i..], r[j + 1..]));
        merged := merged + [r[j]];
        j := j + 1;
      }
    }
    merged := merged + l[i..];
    merged := merged + r[j..];
  }

  /** The merge for all inputs, sorted or not: the result is the sorted union, and the flag tells
      whether it differs from the left vector on entry. */
  method JoinSortedUniqueAssign<T(==,!new)>(less: (T, T) -> bool, left: seq<T>, right: seq<T>)
    returns (merged: seq<T>, changed: bool)
    requires Total(less)
    ensures merged == Union(less, left, right)
    ensures changed <==> merged != left
  {
    var leftWasCanonical := AdjacentAscending(less, left);
    SortedFixpoint(less, left);
    if leftWasCanonical { AdjacentIsAscending(less, left); }
    var l := left;
    if !leftWasCanonical {
      l := SortedUnique(less, left);
    }
    merged := MergeSorted(less, l, SortedUnique(less, right));
    changed := !leftWasCanonical || |merged| != |l|;
    MergeIsUnion(less, left, right);
    UnionMeaning(less, left, right);
    if leftWasCanonical { SortedSubset(less, left, merged); }
  }

  // ----- string values and labels -----

  method JoinStringsAssign(left: StringValue, right: StringValue) returns (joined: StringValue, changed: bool)
    ensures joined == JoinStrings(left, right)
    ensures changed <==> joined != left
  {
    StringOrder();
    if left.NoString? {
      if right.NoString? { return left, false; }
      return right, true;
    }
    if right.NoString? { return left, false; }
    if left.Constants? && right.Constants? {
      var values, grew := JoinSortedUniqueAssign(StringLess, left.values, right.values);
      if |values| > MaxConstants { return AnyString, true; }
      return Constants(values), grew;
    }
    if left.Pattern? && right.Pattern? && left.pattern == right.pattern { return left, false; }
    if left.AnyString? { return left, false; }
    if right.AnyString? { return AnyString, true; }
    joined := JoinStrings(left, right);
    changed := joined != left;
  }

  method JoinTrustAssign(left: Trust, right: Trust) returns (joined: Trust, changed: bool)
    ensures joined == JoinTrust(left, right)
    ensures changed <==> joined != left
  {
    ReasonOrder();
    match (left, right)
    case (Untrusted, _) => return left, false;
    case (Trusted, Trusted) => return left, false;
    case (_, Untrusted) => return Untrusted, true;
    case (UnknownTrust(a), UnknownTrust(b)) =>
      var reasons, grew := JoinSortedUniqueAssign(ReasonLess, a, b);
      return UnknownTrust(reasons), grew;
    case (UnknownTrust(_), _) => return left, false;
    case (_, UnknownTrust(b)) => return UnknownTrust(b), true;
    case (Mixed, _) => return left, false;
    case (_, Mixed) => return Mixed, true;
  }

  method JoinSecrecyAssign(left: Secrecy, right: Secrecy) returns (joined: Secrecy, changed: bool)
    ensures joined == JoinSecrecy(left, right)
    ensures changed <==> joined != left
  {
    ReasonOrder();
    match (left, right)
    case (Secret, _) => return left, false;
    case (Public, Public) => return left, false;
    case (_, Secret) => return Secret, true;
    case (UnknownSecrecy(a), UnknownSecrecy(b)) =>
      var reasons, grew := JoinSortedUniqueAssign(ReasonLess, a, b);
      return UnknownSecrecy(reasons), grew;
    case (UnknownSecrecy(_), _) => return left, false;
    case (_, UnknownSecrecy(b)) => return UnknownSecrecy(b), true;
    case (Sensitive, _) => return left, false;
    case (_, Sensitive) => return Sensitive, true;
  }

  // ----- the accumulator -----

  /** An abstract value that is joined into in place. */
  class AbstractCell {
    var valueType: ValueType
    var value: Value
    var trust: Trust
    var secrecy: Secrecy
    var provenance: seq<Provenance>

    constructor (v: AbstractValue)
      ensures State() == v
    {
      valueType, value, trust, secrecy, provenance := v.valueType, v.value, v.trust, v.secrecy, v.provenance;
    }

    function State(): AbstractValue
      reads this
    {
      AbstractValue(valueType, value, trust, secrecy, provenance)
    }

    method CloneFrom(v: AbstractValue)
      modifies this
      ensures State() == v
    {
      valueType, value, trust, secrecy, provenance := v.valueType, v.value, v.trust, v.secrecy, v.provenance;
    }

    /** The flag is true exactly when the state differs from the state on entry, for all inputs. */
    method JoinAssign(other: AbstractValue) returns (changed: bool)
      modifies this
      ensures State() == Join(old(State()), other)
      ensures changed <==> State() != old(State())
      decreases other
    {
      hide AssignedValue, Union, JoinTrust, JoinSecrecy, Total, ProvenanceLess;
      if value == Bottom {
        if State() == other { return false; }
        CloneFrom(other);
        return true;
      }
      if other.value == Bottom { return false; }
      var joinedType :=
        if valueType == Never then other.valueType
        else if other.valueType == Never || valueType == other.valueType then valueType
        else Dynamic;
      changed := false;
      if valueType != joinedType {
        valueType := joinedType;
        changed := true;
      }
      var flag;
      value, flag := JoinValueAssign(value, other.value);
      changed := changed || flag;
      trust, flag := JoinTrustAssign(trust, other.trust);
      changed := changed || flag;
      secrecy, flag := JoinSecrecyAssign(secrecy, other.secrecy);
      changed := changed || flag;
      ProvenanceOrder();
      provenance, flag := JoinSortedUniqueAssign(ProvenanceLess, provenance, other.provenance);
      changed := changed || flag;
    }
  }

  method JoinItemsAssign(left: seq<AbstractValue>, right: seq<AbstractValue>)
    returns (items: seq<AbstractValue>, changed: bool)
    requires |left| == |right|
    ensures List(items) == AssignedValue(List(left), List(right))
    ensures changed <==> items != left
    decreases right, 0
  {
    items, changed := left, false;
    for i := 0 to |left|
      invariant |items| == |left|
      invariant forall j :: 0 <= j < i ==> items[j] == Join(left[j], right[j])
      invariant forall j :: i <= j < |left| ==> items[j] == left[j]
      invariant changed <==> exists j :: 0 <= j < i && items[j] != left[j]
    {
      var cell := new AbstractCell(items[i]);
      var flag := cell.JoinAssign(right[i]);
      ghost var before := items;
      items := items[i := cell.State()];
      assert forall j :: 0 <= j < i ==> items[j] == before[j];
      assert flag <==> items[i] != left[i];
      changed := flag || changed;
    }
    assert AssignedValue(List(left), List(right)).items == items;
  }

  /** The fields of the left object after those of the right one, but for the pending keys, were joined. */
  ghost predicate FieldsSoFar(
    left: map<string, AbstractValue>, right: map<string, AbstractValue>, pending: set<string>,
    fields: map<string, AbstractValue>)
  {
    && pending <= right.Keys && fields.Keys == left.Keys + (right.Keys - pending)
    && (forall k :: k in right && k !in pending ==>
      fields[k] == if k in left then Join(left[k], right[k]) else right[k])
    && forall k :: k in left && (k in pending || k !in right) ==> fields[k] == left[k]
  }

  lemma OneFieldMore(
    left: map<string, AbstractValue>, right: map<string, AbstractValue>, pending: set<string>,
    fields: map<string, AbstractValue>, key: string, joined: AbstractValue)
    requires FieldsSoFar(left, right, pending, fields) && key in pending
    requires joined == if key in left then Join(left[key], right[key]) else right[key]
    ensures key in fields <==> key in left
    ensures key in left ==> fields[key] == left[key]
    ensures FieldsSoFar(left, right, pending - {key}, fields[key := joined])
    ensures fields[key := joined] != left <==> fields != left || key !in left || joined != left[key]
  {
    hide Join;
    var more := fields[key := joined];
    assert forall k :: k in left && k != key ==> fields[k] == more[k];
    if fields == left && key in left && joined == left[key] { assert more == left; }
    if fields.Keys == left.Keys && forall k :: k in left ==> fields[k] == left[k] { assert fields == left; }
  }

  lemma AllFields(left: Value, right: Value, fields: map<string, AbstractValue>)
    requires left.Object? && right.Object? && FieldsSoFar(left.fields, right.fields, {}, fields)
    ensures AssignedValue(left, right) == Object(fields)
  {
    hide Join;
    assert AssignedValue(left, right).fields == fields;
  }

  method JoinFieldsAssign(left: Value, right: Value) returns (joined: Value, changed: bool)
    requires left.Object? && right.Object?
    ensures joined == AssignedValue(left, right)
    ensures changed <==> joined != left
    decreases right, 0
  {
    var fields := left.fields;
    changed := false;
    var pending := right.fields.Keys;
    assert FieldsSoFar(left.fields, right.fields, pending, fields);
    hide FieldsSoFar, AssignedValue;
    while pending != {}
      invariant pending <= right.fields.Keys && FieldsSoFar(left.fields, right.fields, pending, fields)
      invariant changed <==> fields != left.fields
      decreases pending
    {
      var key :| key in pending;
      OneFieldMore(left.fields, right.fields, pending, fields, key,
        if key in left.fields then Join(left.fields[key], right.fields[key]) else right.fields[key]);
      if key in fields {
        var cell := new AbstractCell(fields[key]);
        var flag := cell.JoinAssign(right.fields[key]);
        fields := fields[key := cell.State()];
        changed := changed || flag;
      } else {
        fields := fields[key := right.fields[key]];
        changed := true;
      }
      pending := pending - {key};
    }
    AllFields(left, right, fields);
    joined := Object(fields);
  }

  method JoinValueAssign(left: Value, right: Value) returns (joined: Value, changed: bool)
    ensures joined == AssignedValue(left, right)
    ensures changed <==> joined != left
    decreases right, 1
  {
    hide Total, ReasonLess, Union, JoinStrings;
    ReasonOrder();
    if left.Text? && right.Text? {
      var text, flag := JoinStringsAssign(left.text, right.text);
      return Text(text), flag;
    } else if SameLength(left, right) {
      var items, flag := JoinItemsAssign(left.items, right.items);
      return List(items), flag;
    } else if left.Object? && right.Object? {
      joined, changed := JoinFieldsAssign(left, right);
      return;
    } else if left.Unknown? {
      var reasons, flag :=
        JoinSortedUniqueAssign(ReasonLess, left.reasons, if right.Unknown? then right.reasons else [Incompatible]);
      return Unknown(reasons), flag;
    } else if right.Unknown? {
      var reasons, _ := JoinSortedUniqueAssign(ReasonLess, right.reasons, [Incompatible]);
      return Unknown(reasons), true;
    }
    joined := JoinValue(left, right);
    changed := joined != left;
  }

  /** The in-place and the pure value join agree exactly when every bottom field that only the left
      object has is the default value. */
  lemma AssignedIsJoinValueExactly(left: Value, right: Value)
    ensures AssignedValue(left, right) == JoinValue(left, right) <==>
      (left.Object? && right.Object? ==>
        forall k :: k in left.fields && k !in right.fields && left.fields[k].value == Bottom
          ==> left.fields[k] == Default)
  {
    if left.Object? && right.Object? {
      var a, b := AssignedValue(left, right).fields, JoinValue(left, right).fields;
      assert a.Keys == b.Keys;
      forall k | k in a
        ensures a[k] == b[k] <==>
          (k in left.fields && k !in right.fields && left.fields[k].value == Bottom ==> left.fields[k] == Default)
      {}
      if forall k :: k in a ==> a[k] == b[k] { assert a == b; }
      if a == b {
        forall k | k in left.fields && k !in right.fields && left.fields[k].value == Bottom
          ensures left.fields[k] == Default
        {
          assert k in a;
        }
      }
    }
  }
}
