/** When the order of a run matters (src/domain/abstract_value.rs). */
module RunOrder {
  import opened Orders
  import opened Outcomes
  import opened Text
  import opened AbstractValues
  import opened JoinStable
  import opened JoinOrder

  // ----- three values in any order -----

  predicate StringsConflict(a: StringValue, b: StringValue, c: StringValue) {
    LosesAffix(a, b, c) || LosesAffix(b, c, a) || LosesAffix(c, a, b)
  }

  lemma StringsConflictLater(a: StringValue, b: StringValue, x: StringValue, y: StringValue)
    requires StringShape(true, a) && StringShape(true, b) && !StringClash(a, b)
    requires !StringsConflict(a, x, y) && !StringsConflict(b, x, y)
    ensures !StringsConflict(JoinStrings(a, b), x, y)
  {
    if a.NoString? || b.NoString? { return; }
    var j := JoinStrings(a, b);
    JoinedKind(a, b);
    hide JoinStrings, SameStart, SameLast, StringClash, Union;
    if LosesAffix(x, y, j) { EndsKept(a, b, x, y); }
  }

  /** A join is a single constant only of that constant with itself, and an affix only of operands with ends. */
  lemma JoinedKind(a: StringValue, b: StringValue)
    requires StringShape(true, a) && StringShape(true, b) && !a.NoString? && !b.NoString?
    ensures var j := JoinStrings(a, b);
      && (j.Constants? && |j.values| == 1 ==> j == a == b)
      && (j.Affix? ==> HasEnds(a) && HasEnds(b) && (a.Affix? || b.Affix?))
  {
    if a.Constants? && b.Constants? {
      if |a.values| == 1 && |b.values| == 1 { TwoConstants(a, b); } else { ManyConstants(a, b); }
    }
  }

  lemma StartKept(p: Option<string>, q: Option<string>, s: Option<string>, t: Option<string>)
    requires NoLeadClash(p, q) && SameStart(s, t, JoinPrefixes(p, q))
    ensures SameStart(s, t, p) && SameStart(s, t, q)
  {
    CommonPrefixFacts(p.value, q.value);
  }

  lemma LastKept(p: Option<string>, q: Option<string>, s: Option<string>, t: Option<string>)
    requires SameLast(s, t, JoinSuffixes(p, q))
    ensures SameLast(s, t, p) && SameLast(s, t, q)
  {
    CommonSuffixFacts(p.value, q.value);
    SameLastScalar(p.value, JoinSuffixes(p, q).value);
    SameLastScalar(q.value, JoinSuffixes(p, q).value);
  }

  lemma SameLastScalar(s: string, t: string)
    requires EndsWith(s, t) && t != []
    ensures s != [] && s[|s| - 1] == t[|t| - 1]
  {
    assert s[|s| - |t|..][|t| - 1] == s[|s| - 1];
  }

  /** An affix that shares an end with two constants came from one that does. */
  lemma EndsKept(a: StringValue, b: StringValue, x: StringValue, y: StringValue)
    requires HasEnds(a) && HasEnds(b) && (a.Affix? || b.Affix?) && !StringClash(a, b)
    requires LosesAffix(x, y, JoinStrings(a, b))
    ensures LosesAffix(x, y, a) || LosesAffix(x, y, b)
  {
    EndsJoin(a, b);
    EndsClashFree(a, b);
    hide JoinStrings, StringClash, NoLeadClash, SameStart, SameLast, JoinPrefixes, JoinSuffixes;
    var (p, q, u, v) := (PrefixOf(a), PrefixOf(b), SuffixOf(a), SuffixOf(b));
    if SameStart(PrefixOf(x), PrefixOf(y), JoinPrefixes(p, q)) {
      StartKept(p, q, PrefixOf(x), PrefixOf(y));
    } else {
      LastKept(u, v, SuffixOf(x), SuffixOf(y));
    }
  }

  lemma EndsClashFree(a: StringValue, b: StringValue)
    requires HasEnds(a) && HasEnds(b) && (a.Affix? || b.Affix?) && !StringClash(a, b)
    ensures NoLeadClash(PrefixOf(a), PrefixOf(b))
  {}

  /** The order of joining these three values matters in some arrangement. */
  predicate Conflict(a: AbstractValue, b: AbstractValue, c: AbstractValue) {
    OrderMatters(a, b, c) || OrderMatters(b, c, a) || OrderMatters(c, a, b)
  }

  lemma TextsConflict(a: AbstractValue, b: AbstractValue, c: AbstractValue)
    requires a.value.Text? && b.value.Text? && c.value.Text?
    ensures Conflict(a, b, c) <==> StringsConflict(a.value.text, b.value.text, c.value.text)
  {
    hide LosesAffix;
  }

  lemma ItemsConflict(a: AbstractValue, b: AbstractValue, c: AbstractValue)
    requires SameLength(a.value, b.value) && SameLength(b.value, c.value)
    ensures Conflict(a, b, c) <==>
      exists i :: 0 <= i < |a.value.items| && Conflict(a.value.items[i], b.value.items[i], c.value.items[i])
  {
    hide StringOrderMatters;
  }

  lemma FieldsConflict(a: AbstractValue, b: AbstractValue, c: AbstractValue)
    requires a.value.Object? && b.value.Object? && c.value.Object?
    ensures Conflict(a, b, c) <==>
      exists k :: (k in a.value.fields && k in b.value.fields && k in c.value.fields
        && Conflict(a.value.fields[k], b.value.fields[k], c.value.fields[k]))
  {
    hide StringOrderMatters;
  }

  /** Only lists of one length, objects, or texts conflict. */
  lemma NoConflict(a: AbstractValue, b: AbstractValue, c: AbstractValue)
    requires !(SameLength(a.value, b.value) && SameLength(b.value, c.value))
    requires !(a.value.Object? && b.value.Object? && c.value.Object?)
    requires !(a.value.Text? && b.value.Text? && c.value.Text?)
    ensures !Conflict(a, b, c)
  {
    hide StringOrderMatters;
  }

  /** The join of two values conflicts with two others only if one of them does. */
  lemma {:induction false} ConflictJoin(a: AbstractValue, b: AbstractValue, x: AbstractValue, y: AbstractValue)
    requires Normal(a) && Normal(b) && !Clash(a, b)
    requires !Conflict(a, x, y) && !Conflict(b, x, y)
    ensures !Conflict(Join(a, b), x, y)
    decreases b
  {
    hide Conflict, StringsConflict, JoinStrings, Union, JoinTrust, JoinSecrecy, JoinTypes;
    if a.value == Bottom || b.value == Bottom { return; }
    var j := Join(a, b);
    assert j.value == AssignedValue(a.value, b.value);
    assert ValueShape(true, a.value) && ValueShape(true, b.value);
    if SameLength(j.value, x.value) && SameLength(x.value, y.value) {
      var (l, r) := (x.value.items, y.value.items);
      ItemsConflict(a, x, y);
      ItemsConflict(b, x, y);
      forall i | 0 <= i < |l| ensures !Conflict(j.value.items[i], l[i], r[i]) {
        ConflictJoin(a.value.items[i], b.value.items[i], l[i], r[i]);
      }
      ItemsConflict(j, x, y);
    } else if j.value.Object? && x.value.Object? && y.value.Object? {
      var (l, r) := (x.value.fields, y.value.fields);
      FieldsConflict(a, x, y);
      FieldsConflict(b, x, y);
      forall k | k in j.value.fields && k in l && k in r ensures !Conflict(j.value.fields[k], l[k], r[k]) {
        if k in a.value.fields && k in b.value.fields {
          ConflictJoin(a.value.fields[k], b.value.fields[k], l[k], r[k]);
        }
      }
      FieldsConflict(j, x, y);
    } else if j.value.Text? && x.value.Text? && y.value.Text? {
      TextsConflict(a, x, y);
      TextsConflict(b, x, y);
      StringsConflictLater(a.value.text, b.value.text, x.value.text, y.value.text);
      TextsConflict(j, x, y);
    } else {
      NoConflict(j, x, y);
    }
  }

  // ----- sets that stay free of clashes and conflicts -----

  ghost predicate NoConflicts(s: iset<AbstractValue>) {
    forall a, b, c :: a in s && b in s && c in s ==> !OrderMatters(a, b, c)
  }

  ghost predicate Free(s: iset<AbstractValue>) {
    (forall v :: v in s ==> Normal(v)) && NoClash(s) && NoConflicts(s)
  }

  lemma {:induction false} ClashCommutes(a: AbstractValue, b: AbstractValue)
    ensures Clash(a, b) <==> Clash(b, a)
    decreases b
  {
    if a.value.List? && b.value.List? && |a.value.items| == |b.value.items| {
      forall i | 0 <= i < |a.value.items|
        ensures Clash(a.value.items[i], b.value.items[i]) <==> Clash(b.value.items[i], a.value.items[i])
      {
        ClashCommutes(a.value.items[i], b.value.items[i]);
      }
    } else if a.value.Object? && b.value.Object? {
      forall k | k in a.value.fields && k in b.value.fields
        ensures Clash(a.value.fields[k], b.value.fields[k]) <==> Clash(b.value.fields[k], a.value.fields[k])
      {
        ClashCommutes(a.value.fields[k], b.value.fields[k]);
      }
    }
  }

  ghost predicate AllFree(s: iset<AbstractValue>) {
    forall a, b, c :: a in s && b in s && c in s ==> !Conflict(a, b, c)
  }

  lemma NoConflictsRotated(s: iset<AbstractValue>)
    ensures NoConflicts(s) <==> AllFree(s)
  {
    hide OrderMatters;
    if AllFree(s) {
      forall a, b, c | a in s && b in s && c in s ensures !OrderMatters(a, b, c) { assert !Conflict(a, b, c); }
    }
  }

  /** The set may grow by the join of two of its values. */
  lemma FreeGrows(s: iset<AbstractValue>, a: AbstractValue, b: AbstractValue)
    requires Free(s) && a in s && b in s
    ensures Free(s + iset{Join(a, b)})
  {
    hide Clash, OrderMatters, Conflict, Normal, Join;
    var j := Join(a, b);
    NormalExactly(a, b);
    NoConflictsRotated(s);
    forall v | v in s ensures !Clash(j, v) && !Clash(v, j) {
      ClashJoin(a, b, v);
      ClashCommutes(j, v);
    }
    ClashJoin(a, b, j);
    forall x, y | x in s && y in s ensures !Conflict(j, x, y) { ConflictJoin(a, b, x, y); }
    forall x | x in s ensures !Conflict(j, j, x) && !Conflict(j, x, j) {
      Rotations(j, x, a);
      Rotations(j, x, b);
      Rotations(j, a, x);
      Rotations(j, b, x);
      ConflictJoin(a, b, j, x);
      ConflictJoin(a, b, x, j);
    }
    Rotations(j, j, a);
    Rotations(j, j, b);
    ConflictJoin(a, b, j, j);
    var t := s + iset{j};
    forall x, y, z | x in t && y in t && z in t ensures !Conflict(x, y, z) { Rotations(x, y, z); }
    NoConflictsRotated(t);
  }

  lemma Rotations(a: AbstractValue, b: AbstractValue, c: AbstractValue)
    ensures Conflict(a, b, c) <==> Conflict(b, c, a)
    ensures Conflict(a, b, c) <==> Conflict(c, a, b)
  {
    hide OrderMatters;
  }

  // ----- runs -----

  ghost predicate Over(run: seq<AbstractValue>, s: iset<AbstractValue>) { forall v :: v in run ==> v in s }

  lemma FreeSmaller(s: iset<AbstractValue>, t: iset<AbstractValue>)
    requires Free(t) && s <= t
    ensures Free(s)
  {}

  lemma {:induction false} FreeFold(s: iset<AbstractValue>, acc: AbstractValue, run: seq<AbstractValue>)
    requires Free(s) && acc in s && Over(run, s)
    ensures Free(s + iset{Fold(acc, run)})
    decreases |run|
  {
    hide Free;
    if run == [] {
      assert s + iset{acc} == s;
    } else {
      var next := Join(acc, run[0]);
      FreeGrows(s, acc, run[0]);
      FreeFold(s + iset{next}, next, run[1..]);
      FreeSmaller(s + iset{Fold(acc, run)}, s + iset{next} + iset{Fold(next, run[1..])});
    }
  }

  lemma FreeAssociates(s: iset<AbstractValue>, a: AbstractValue, b: AbstractValue, c: AbstractValue)
    requires Free(s) && a in s && b in s && c in s
    ensures Join(Join(a, b), c) == Join(a, Join(b, c))
  {
    hide Clash, OrderMatters, Normal, Join;
    JoinAssociatesExactly(a, b, c);
  }

  /** A run from an accumulator is the join of the accumulator with the run from nothing. */
  lemma {:induction false} FoldIsJoin(s: iset<AbstractValue>, acc: AbstractValue, run: seq<AbstractValue>)
    requires Free(s) && acc in s && Over(run, s) && Default in s
    ensures Fold(acc, run) == Join(acc, Fold(Default, run))
    decreases |run|
  {
    assert Normal(acc);
    hide Free;
    if run != [] {
      var x, rest := run[0], run[1..];
      FreeGrows(s, acc, x);
      FoldIsJoin(s + iset{Join(acc, x)}, Join(acc, x), rest);
      FreeFold(s, Default, rest);
      FreeAssociates(s + iset{Fold(Default, rest)}, acc, x, Fold(Default, rest));
      FoldIsJoin(s, x, rest);
      assert Fold(Default, run) == Fold(x, rest);
    }
  }

  lemma FreeDefault(s: iset<AbstractValue>)
    requires Free(s)
    ensures Free(s + iset{Default})
  {}

  ghost predicate SameValues(r: seq<AbstractValue>, t: seq<AbstractValue>) {
    forall v :: v in r <==> v in t
  }

  /** The value of a run over `s` depends only on the set of its values. */
  ghost predicate OrderFree(s: iset<AbstractValue>) {
    forall r, t :: Over(r, s) && SameValues(r, t) ==> Fold(Default, r) == Fold(Default, t)
  }

  lemma FreeRunsAgree(s: iset<AbstractValue>, r: seq<AbstractValue>, t: seq<AbstractValue>)
    requires Free(s) && Default in s && Over(r, s) && SameValues(r, t)
    ensures Fold(Default, r) == Fold(Default, t)
  {
    var (f, g) := (Fold(Default, r), Fold(Default, t));
    OnePassInputs(s);
    assert Settled(f, r) && Settled(g, t);
    SecondPass(f, r, t);
    SecondPass(g, t, r);
    hide Free;
    FreeFold(s, Default, r);
    FreeFold(s, Default, t);
    FreeFold(s + iset{f}, Default, t);
    FoldIsJoin(s + iset{f}, f, t);
    FoldIsJoin(s + iset{g}, g, r);
    FreeCommutes(s + iset{f} + iset{g}, f, g);
  }

  lemma FreeCommutes(s: iset<AbstractValue>, a: AbstractValue, b: AbstractValue)
    requires Free(s) && a in s && b in s
    ensures Join(a, b) == Join(b, a)
  {
    NormalIsShape(a);
    NormalIsShape(b);
    JoinCommutes(a, b);
  }

  lemma ThreeRuns(a: AbstractValue, b: AbstractValue, c: AbstractValue)
    ensures Fold(Default, [a, b, c]) == Join(Join(a, b), c)
  {
    assert [a, b, c][1..] == [b, c] && [b, c][1..] == [c] && [c][1..] == [];
    assert Fold(Default, [a, b, c]) == Fold(a, [b, c]) == Fold(Join(a, b), [c]) == Fold(Join(Join(a, b), c), []);
  }

  /** Without clashes, the value of every run over `s` depends only on the set of joined values exactly
      when no three values of `s` join to different results in different orders. */
  lemma OrderFreeExactly(s: iset<AbstractValue>)
    requires (forall v :: v in s ==> Normal(v)) && NoClash(s)
    ensures OrderFree(s) <==> NoConflicts(s)
  {
    if NoConflicts(s) {
      FreeDefault(s);
      forall r, t | Over(r, s) && SameValues(r, t) ensures Fold(Default, r) == Fold(Default, t) {
        FreeRunsAgree(s + iset{Default}, r, t);
      }
    } else {
      var a, b, c :| a in s && b in s && c in s && OrderMatters(a, b, c);
      hide OrderMatters, Clash, Normal;
      JoinAssociatesExactly(a, b, c);
      ThreeRuns(a, b, c);
      ThreeRuns(b, c, a);
      NormalExactly(b, c);
      NormalIsShape(a);
      NormalIsShape(Join(b, c));
      JoinCommutes(a, Join(b, c));
      assert Over([a, b, c], s) && SameValues([a, b, c], [b, c, a]);
    }
  }
}
