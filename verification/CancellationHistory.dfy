/** Which finished requests the history still holds (src/application/lsp.rs): the requests that have entered it and
    have not been started since, but for those that so many younger ones have pushed out. */
module CancellationHistory {
  import opened Sequences
  import opened Cancellation

  // ----- one step -----

  lemma ExpireOne(completed: set<Id>, order: seq<Id>)
    requires |order| <= 4097
    ensures Expire(completed, order) ==
      if |order| <= 4096 then (completed, order) else (completed - {order[0]}, order[1..])
  {
    if |order| == 4097 { assert Expire(completed - {order[0]}, order[1..]) == (completed - {order[0]}, order[1..]); }
  }

  /** A finished id goes to the end of the history unless it is there already; the oldest one leaves when
      4096 ids were there before. */
  lemma FinishHistory(s: State, id: Id)
    requires Invariant(s)
    ensures FinishStep(s, id).order ==
      if id in s.completed then s.order
      else if |s.order| < 4096 then s.order + [id]
      else s.order[1..] + [id]
  {
    ExpireOne(s.completed + {id}, if id in s.completed then s.order else s.order + [id]);
    if id !in s.completed && |s.order| == 4096 { assert (s.order + [id])[1..] == s.order[1..] + [id]; }
  }

  // ----- when ids enter and who is younger -----

  /** At this place a finished id that was not in the history entered it. */
  ghost predicate Enters(trace: seq<Operation>, j: nat, id: Id) {
    j < |trace| && trace[j] == Finish(id) && id !in Run(trace[..j]).completed
  }

  /** The id entered here and has not been started since. */
  ghost predicate Stands(trace: seq<Operation>, j: nat, id: Id) {
    Enters(trace, j, id) && NotAfter(trace, j, Start(id))
  }

  /** The id entered after this place and has not been started since. */
  ghost predicate Younger(trace: seq<Operation>, j: nat, id: Id) {
    exists l :: j < l < |trace| && Stands(trace, l, id)
  }

  lemma EntersBefore(trace: seq<Operation>, j: nat, id: Id)
    requires trace != [] && j < |trace| - 1
    ensures Enters(trace[..|trace| - 1], j, id) <==> Enters(trace, j, id)
  {
    assert trace[..|trace| - 1][..j] == trace[..j] && trace[..|trace| - 1][j] == trace[j];
  }

  lemma StandsStep(trace: seq<Operation>, j: nat, id: Id)
    requires trace != [] && j < |trace| - 1
    ensures Stands(trace, j, id) <==>
      Stands(trace[..|trace| - 1], j, id) && trace[|trace| - 1] != Start(id)
  {
    EntersBefore(trace, j, id);
    NotAfterStep(trace, j, Start(id));
  }

  lemma StandsLast(trace: seq<Operation>, id: Id)
    requires trace != []
    ensures Stands(trace, |trace| - 1, id) <==>
      trace[|trace| - 1] == Finish(id) && id !in Run(trace[..|trace| - 1]).completed
  {}

  lemma YoungerStep(trace: seq<Operation>, j: nat, id: Id)
    requires trace != [] && j < |trace| - 1
    ensures Younger(trace, j, id) <==>
      || (Younger(trace[..|trace| - 1], j, id) && trace[|trace| - 1] != Start(id))
      || (trace[|trace| - 1] == Finish(id) && id !in Run(trace[..|trace| - 1]).completed)
  {
    hide Stands;
    var n := |trace| - 1;
    StandsLast(trace, id);
    if Younger(trace, j, id) {
      var l :| j < l < |trace| && Stands(trace, l, id);
      if l < n { StandsStep(trace, l, id); }
    }
    if Younger(trace[..n], j, id) && trace[n] != Start(id) {
      var l :| j < l < n && Stands(trace[..n], l, id);
      StandsStep(trace, l, id);
    }
  }

  predicate Behind(order: seq<Id>, i: nat, id: Id) { i < |order| && id in order[i + 1..] }

  /** Where the `i`-th id of the history entered: the ids behind it are the younger ones. */
  ghost predicate EnteredAt(trace: seq<Operation>, i: nat, j: nat) {
    var order := Run(trace).order;
    && i < |order| && Stands(trace, j, order[i])
    && forall x :: Behind(order, i, x) <==> Younger(trace, j, x)
  }

  lemma {:induction false} WithoutSplit(order: seq<Id>, id: Id) returns (p: nat)
    requires Distinct(order) && id in order
    ensures p < |order| && order[p] == id && Without(order, id) == order[..p] + order[p + 1..]
  {
    if order[0] == id {
      WithoutNone(order[1..], id);
      return 0;
    }
    p := WithoutSplit(order[1..], id);
    p := p + 1;
    assert order[1..][..p - 1] == order[1..p] && [order[0]] + order[1..p] == order[..p];
    assert order[1..][p..] == order[p + 1..];
  }

  lemma {:induction false} WithoutNone(order: seq<Id>, id: Id)
    requires id !in order
    ensures Without(order, id) == order
  {
    if order != [] {
      assert order[0] in order;
      WithoutNone(order[1..], id);
    }
  }

  /** A step keeps the entry of an id that it does not start, when it keeps the order of the ids behind it. */
  lemma EnteredStep(trace: seq<Operation>, i: nat, old': nat, j: nat)
    requires trace != [] && j < |trace| - 1 && EnteredAt(trace[..|trace| - 1], old', j)
    requires var (order, s, op) := (Run(trace).order, Run(trace[..|trace| - 1]), trace[|trace| - 1]);
      && i < |order| && order[i] == s.order[old'] && op != Start(order[i])
      && forall y :: Behind(order, i, y) <==>
        (Behind(s.order, old', y) && op != Start(y)) || (op == Finish(y) && y !in s.completed)
    ensures EnteredAt(trace, i, j)
  {
    hide Stands, Younger, Run;
    StandsStep(trace, j, Run(trace).order[i]);
    var before, order := trace[..|trace| - 1], Run(trace).order;
    forall y ensures Behind(order, i, y) <==> Younger(trace, j, y) {
      YoungerStep(trace, j, y);
      assert Behind(Run(before).order, old', y) <==> Younger(before, j, y);
    }
  }

  /** Every id of the history entered somewhere, and the ids behind it are the younger ones. */
  lemma {:induction false} EntryTime(trace: seq<Operation>, i: nat) returns (j: nat)
    requires i < |Run(trace).order|
    ensures j < |trace| && EnteredAt(trace, i, j)
    decreases |trace|, 1
  {
    var n := |trace| - 1;
    var before, op := trace[..n], trace[n];
    InvariantAlways(before);
    match op
    case Cancel(_) =>
      j := EntryTime(before, i);
      EnteredStep(trace, i, i, j);
    case Start(x) => j := EntryAfterStart(trace, i, x);
    case Finish(x) => j := EntryAfterFinish(trace, i, x);
  }

  lemma {:induction false} EntryAfterStart(trace: seq<Operation>, i: nat, x: Id) returns (j: nat)
    requires trace != [] && trace[|trace| - 1] == Start(x) && i < |Run(trace).order|
    ensures j < |trace| && EnteredAt(trace, i, j)
    decreases |trace|, 0
  {
    var before := trace[..|trace| - 1];
    var s := Run(before);
    InvariantAlways(before);
    if x in s.order {
      var p := WithoutSplit(s.order, x);
      var old' := if i < p then i else i + 1;
      LaterWithout(s.order, x, p, i);
      j := EntryTime(before, old');
      EnteredStep(trace, i, old', j);
    } else {
      WithoutNone(s.order, x);
      j := EntryTime(before, i);
      assert forall y :: y in s.order[i + 1..] ==> y in s.order;
      EnteredStep(trace, i, i, j);
    }
  }

  lemma LaterWithout(order: seq<Id>, x: Id, p: nat, i: nat)
    requires Distinct(order) && p < |order| && order[p] == x && i < |order| - 1
    ensures var rest, old' := order[..p] + order[p + 1..], if i < p then i else i + 1;
      && rest[i] == order[old'] && rest[i] != x
      && forall y :: Behind(rest, i, y) <==> Behind(order, old', y) && y != x
  {
    var rest, old' := order[..p] + order[p + 1..], if i < p then i else i + 1;
    if i < p {
      assert rest[i + 1..] == order[i + 1..p] + order[p + 1..];
      assert order[i + 1..] == order[i + 1..p] + [x] + order[p + 1..];
    } else {
      assert rest[i + 1..] == order[i + 2..];
    }
  }

  lemma BehindAppended(order: seq<Id>, full: bool, x: Id, i: nat)
    requires i + 1 <= |order| && (full ==> i + 1 < |order|)
    ensures var (longer, old') := ((if full then order[1..] else order) + [x], if full then i + 1 else i);
      && i < |longer| && longer[i] == order[old']
      && forall y :: Behind(longer, i, y) <==> Behind(order, old', y) || y == x
  {
    var (longer, old') := ((if full then order[1..] else order) + [x], if full then i + 1 else i);
    assert longer[i + 1..] == order[old' + 1..] + [x];
  }

  lemma {:induction false} EntryAfterFinish(trace: seq<Operation>, i: nat, x: Id) returns (j: nat)
    requires trace != [] && trace[|trace| - 1] == Finish(x) && i < |Run(trace).order|
    ensures j < |trace| && EnteredAt(trace, i, j)
    decreases |trace|, 0
  {
    var n := |trace| - 1;
    var before := trace[..n];
    InvariantAlways(before);
    FinishHistory(Run(before), x);
    assert Run(trace).order == FinishStep(Run(before), x).order;
    hide Run, FinishStep;
    var s, order := Run(before), Run(trace).order;
    if x !in s.completed && i == |order| - 1 {
      j := n;
      LastEntered(trace, x);
    } else {
      var full := x !in s.completed && |s.order| == 4096;
      var old' := if full then i + 1 else i;
      if x !in s.completed { BehindAppended(s.order, full, x, i); }
      j := EntryTime(before, old');
      EnteredStep(trace, i, old', j);
    }
  }

  lemma LastEntered(trace: seq<Operation>, x: Id)
    requires trace != [] && trace[|trace| - 1] == Finish(x) && x !in Run(trace[..|trace| - 1]).completed
    requires var order := Run(trace).order; order != [] && order[|order| - 1] == x
    ensures EnteredAt(trace, |Run(trace).order| - 1, |trace| - 1)
  {
    hide Run;
    StandsLast(trace, x);
    var order := Run(trace).order;
    assert order[|order| - 1 + 1..] == [];
  }

  // ----- the history holds exactly what has not been pushed out -----

  /** At most one entry of an id stands, for no id is younger than itself. */
  lemma OneEntry(trace: seq<Operation>, i: nat, j: nat, k: nat)
    requires EnteredAt(trace, i, j) && Stands(trace, k, Run(trace).order[i])
    ensures k <= j
  {
    InvariantAlways(trace);
    var order := Run(trace).order;
    assert !Behind(order, i, order[i]);
    assert !Younger(trace, j, order[i]);
  }

  /** The ids that entered after this place and have not been started since. */
  ghost function YoungerIds(trace: seq<Operation>, j: nat): set<Id> {
    set l | j < l < |trace| && trace[l].Finish? && Stands(trace, l, trace[l].id) :: trace[l].id
  }

  lemma YoungerIdsMeaning(trace: seq<Operation>, j: nat, id: Id)
    ensures id in YoungerIds(trace, j) <==> Younger(trace, j, id)
  {
    if Younger(trace, j, id) {
      var l :| j < l < |trace| && Stands(trace, l, id);
      assert trace[l] == Finish(id);
    }
  }

  lemma {:induction false} DistinctSize(s: seq<Id>)
    requires Distinct(s)
    ensures |set x | x in s| == |s|
  {
    if s != [] {
      DistinctSize(s[1..]);
      assert (set x | x in s) == {s[0]} + set x | x in s[1..];
    }
  }

  /** How many ids are younger is told by the place in the history. */
  lemma YoungerCount(trace: seq<Operation>, i: nat, j: nat)
    requires EnteredAt(trace, i, j)
    ensures |YoungerIds(trace, j)| == |Run(trace).order| - i - 1 < 4096
  {
    InvariantAlways(trace);
    var later := Run(trace).order[i + 1..];
    DistinctSize(later);
    forall x ensures x in YoungerIds(trace, j) <==> x in later {
      YoungerIdsMeaning(trace, j, x);
      assert Behind(Run(trace).order, i, x) <==> x in later;
    }
    assert YoungerIds(trace, j) == set x | x in later;
  }

  /** Since this entry fewer than 4096 younger ids stood at any time. */
  ghost predicate NeverCrowded(trace: seq<Operation>, j: nat) {
    forall k :: j < k <= |trace| ==> |YoungerIds(trace[..k], j)| < 4096
  }

  lemma IndexOf(order: seq<Id>, id: Id) returns (i: nat)
    requires id in order
    ensures i < |order| && order[i] == id
  {
    i :| 0 <= i < |order| && order[i] == id;
  }

  lemma {:induction false} StandsInPrefix(trace: seq<Operation>, j: nat, id: Id, k: nat)
    requires j < k <= |trace|
    ensures Enters(trace[..k], j, id) <==> Enters(trace, j, id)
    ensures Stands(trace, j, id) ==> Stands(trace[..k], j, id)
  {
    assert trace[..k][..j] == trace[..j];
    forall l | j < l < k ensures trace[..k][l] == trace[l] {}
  }

  /** An id that is in the history now and was not then has entered in between. */
  lemma {:induction false} EnteredBetween(trace: seq<Operation>, id: Id, k: nat) returns (l: nat)
    requires k < |trace| && id in Run(trace).completed && id !in Run(trace[..k]).completed
    ensures k <= l < |trace| && Enters(trace, l, id)
    decreases |trace|
  {
    var n := |trace| - 1;
    var before := trace[..n];
    assert k < n ==> before[..k] == trace[..k];
    if id in Run(before).completed {
      assert k < n;
      l := EnteredBetween(before, id, k);
      StandsInPrefix(trace, l, id, n);
    } else {
      l := n;
      OnlyFinishEnters(Run(before), trace[n], id);
    }
  }

  lemma OnlyFinishEnters(s: State, op: Operation, id: Id)
    requires id !in s.completed && id in Step(s, op).completed
    ensures op == Finish(id)
  {
    if op.Finish? { ExpireShrinks(s.completed + {op.id}, if op.id in s.completed then s.order else s.order + [op.id]); }
  }

  lemma {:induction false} ExpireShrinks(completed: set<Id>, order: seq<Id>)
    ensures Expire(completed, order).0 <= completed
    decreases |order|
  {
    if |order| > MaxCompleted { ExpireShrinks(completed - {order[0]}, order[1..]); }
  }

  /** What is in the history now has been there since its entry, and has never been crowded out. */
  lemma RetainedStands(trace: seq<Operation>, id: Id) returns (j: nat)
    requires id in Run(trace).completed
    ensures j < |trace| && Stands(trace, j, id) && NeverCrowded(trace, j)
  {
    InvariantAlways(trace);
    var i := IndexOf(Run(trace).order, id);
    j := EntryTime(trace, i);
    forall k | j < k <= |trace| ensures |YoungerIds(trace[..k], j)| < 4096 { SinceEntry(trace, i, j, k); }
  }

  lemma SinceEntry(trace: seq<Operation>, i: nat, j: nat, k: nat)
    requires EnteredAt(trace, i, j) && j < k <= |trace|
    ensures |YoungerIds(trace[..k], j)| < 4096
  {
    var id, prefix := Run(trace).order[i], trace[..k];
    InvariantAlways(trace);
    InvariantAlways(prefix);
    StandsInPrefix(trace, j, id, k);
    if id in Run(prefix).completed {
      var m := IndexOf(Run(prefix).order, id);
      var e := EntryTime(prefix, m);
      OneEntry(prefix, m, e, j);
      StandsLonger(trace, e, id, k, j);
      OneEntry(trace, i, j, e);
      YoungerCount(prefix, m, e);
    } else {
      assert prefix != trace;
      var l := EnteredBetween(trace, id, k);
      NotAfterLater(trace, j, l, Start(id));
      OneEntry(trace, i, j, l);
    }
  }

  lemma NotAfterLater(trace: seq<Operation>, j: nat, l: nat, op: Operation)
    requires NotAfter(trace, j, op) && j <= l
    ensures NotAfter(trace, l, op)
  {}

  /** What stands in a prefix stands in the whole, when no start follows. */
  lemma StandsLonger(trace: seq<Operation>, e: nat, id: Id, k: nat, j: nat)
    requires e < k <= |trace| && j < k && Stands(trace[..k], e, id) && NotAfter(trace, j, Start(id)) && j <= e
    ensures Stands(trace, e, id)
  {
    StandsInPrefix(trace, e, id, k);
  }

  /** What stands and has never been crowded out is in the history, with that entry. */
  lemma {:induction false} StandsRetained(trace: seq<Operation>, j: nat, id: Id) returns (i: nat)
    requires j < |trace| && Stands(trace, j, id) && NeverCrowded(trace, j)
    ensures i < |Run(trace).order| && Run(trace).order[i] == id && EnteredAt(trace, i, j)
    decreases |trace|
  {
    var n := |trace| - 1;
    if j == n {
      FinishHistory(Run(trace[..n]), id) by { InvariantAlways(trace[..n]); }
      i := |Run(trace).order| - 1;
      LastEntered(trace, id);
    } else {
      PrefixNeverCrowded(trace, j, id);
      var m := StandsRetained(trace[..n], j, id);
      i := StaysOneStep(trace, m, j, id);
    }
  }

  lemma PrefixNeverCrowded(trace: seq<Operation>, j: nat, id: Id)
    requires j < |trace| - 1 && Stands(trace, j, id) && NeverCrowded(trace, j)
    ensures Stands(trace[..|trace| - 1], j, id) && NeverCrowded(trace[..|trace| - 1], j)
    ensures |YoungerIds(trace, j)| < 4096
  {
    var n := |trace| - 1;
    StandsInPrefix(trace, j, id, n);
    forall k | j < k <= n ensures |YoungerIds(trace[..n][..k], j)| < 4096 { assert trace[..n][..k] == trace[..k]; }
    assert trace[..|trace|] == trace;
  }

  lemma StaysOneStep(trace: seq<Operation>, m: nat, j: nat, id: Id) returns (i: nat)
    requires j < |trace| - 1 && EnteredAt(trace[..|trace| - 1], m, j) && Run(trace[..|trace| - 1]).order[m] == id
    requires Stands(trace, j, id) && |YoungerIds(trace, j)| < 4096
    ensures i < |Run(trace).order| && Run(trace).order[i] == id && EnteredAt(trace, i, j)
  {
    var before := trace[..|trace| - 1];
    if m == 0 { NotPushedOut(trace, m, j); }
    InvariantAlways(before);
    RunStep(trace);
    StandsStep(trace, j, id);
    hide EnteredAt, Stands, Run, Step, YoungerIds;
    StepRetains(Run(before), trace[|trace| - 1], m);
    i := IndexOf(Run(trace).order, id);
    EntryUnchanged(trace, i, m, j, id);
  }

  /** An entry of the history stands, and its id is in the history. */
  lemma EntryStands(trace: seq<Operation>, i: nat, j: nat)
    requires EnteredAt(trace, i, j)
    ensures i < |Run(trace).order| && Stands(trace, j, Run(trace).order[i])
    ensures Run(trace).order[i] in Run(trace).completed
  {
    InvariantAlways(trace);
  }

  lemma EntryUnchanged(trace: seq<Operation>, i: nat, m: nat, j: nat, id: Id)
    requires j < |trace| - 1 && EnteredAt(trace[..|trace| - 1], m, j) && Run(trace[..|trace| - 1]).order[m] == id
    requires i < |Run(trace).order| && Run(trace).order[i] == id && Stands(trace, j, id)
    ensures EnteredAt(trace, i, j)
  {
    var before := trace[..|trace| - 1];
    var e := EntryTime(trace, i);
    OneEntry(trace, i, e, j);
    EntryStands(trace, i, e);
    hide Run, Stands, EnteredAt;
    EntryStands(before, m, j);
    StandsLast(trace, id);
    if e < |trace| - 1 {
      StandsInPrefix(trace, e, id, |trace| - 1);
      OneEntry(before, m, j, e);
    }
  }

  lemma RunStep(trace: seq<Operation>)
    requires trace != []
    ensures Run(trace) == Step(Run(trace[..|trace| - 1]), trace[|trace| - 1])
  {}

  /** The last step does not push out the oldest id when its younger ids are few. */
  lemma NotPushedOut(trace: seq<Operation>, m: nat, j: nat)
    requires trace != [] && j < |trace| - 1 && EnteredAt(trace[..|trace| - 1], m, j)
    requires |YoungerIds(trace, j)| < 4096 && m == 0
    ensures var s, op := Run(trace[..|trace| - 1]), trace[|trace| - 1];
      op.Finish? ==> op.id in s.completed || |s.order| != 4096
  {
    hide Run, EnteredAt, YoungerIds;
    var s, op := Run(trace[..|trace| - 1]), trace[|trace| - 1];
    if op.Finish? && op.id !in s.completed && |s.order| == 4096 { Crowded(trace, j, op.id); }
  }

  lemma StepRetains(s: State, op: Operation, m: nat)
    requires Invariant(s) && m < |s.order| && op != Start(s.order[m])
    requires op.Finish? ==> op.id in s.completed || |s.order| < 4096 || m > 0
    ensures s.order[m] in Step(s, op).order
  {
    match op
    case Cancel(_) =>
    case Start(x) => WithoutMeaning(s.order, x);
    case Finish(x) =>
      FinishHistory(s, x);
      if m > 0 { assert s.order[1..][m - 1] == s.order[m]; }
  }

  lemma Crowded(trace: seq<Operation>, j: nat, x: Id)
    requires trace != [] && j < |trace| - 1 && EnteredAt(trace[..|trace| - 1], 0, j)
    requires trace[|trace| - 1] == Finish(x) && x !in Run(trace[..|trace| - 1]).completed
    requires |Run(trace[..|trace| - 1]).order| == 4096
    ensures |YoungerIds(trace, j)| >= 4096
  {
    var before := trace[..|trace| - 1];
    InvariantAlways(before);
    YoungerCount(before, 0, j);
    forall y ensures y in YoungerIds(trace, j) <==> y in YoungerIds(before, j) || y == x {
      YoungerIdsMeaning(trace, j, y);
      YoungerIdsMeaning(before, j, y);
      YoungerStep(trace, j, y);
      assert Younger(before, j, y) <==> Behind(Run(before).order, 0, y);
    }
    YoungerIdsMeaning(before, j, x);
    assert x !in YoungerIds(before, j) by { assert !Behind(Run(before).order, 0, x); }
    assert YoungerIds(trace, j) == YoungerIds(before, j) + {x};
  }

  /** An id is in the history exactly when it entered it, has not been started since, and at no time since
      then 4096 younger ids stood. */
  lemma RetainedExactly(trace: seq<Operation>, id: Id)
    ensures id in Run(trace).completed <==>
      exists j: nat :: j < |trace| && Stands(trace, j, id) && NeverCrowded(trace, j)
  {
    hide Stands, NeverCrowded;
    InvariantAlways(trace);
    if id in Run(trace).completed { var j := RetainedStands(trace, id); }
    if j: nat :| j < |trace| && Stands(trace, j, id) && NeverCrowded(trace, j) {
      var i := StandsRetained(trace, j, id);
    }
  }
}
