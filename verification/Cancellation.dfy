/** Request cancellation shared by the reader and the server (src/application/lsp.rs). */
module Cancellation {
  import opened Sequences

  // Every operation holds the mutex, so an interleaving of the two threads is a sequence of operations.

  type Id = string

  const MaxCompleted := 4096

  /** `active` tells for each running request whether its token is cancelled. */
  datatype State = State(active: map<Id, bool>, pending: set<Id>, completed: set<Id>, order: seq<Id>)

  const Empty := State(map[], {}, {}, [])

  function Without(order: seq<Id>, id: Id): seq<Id> {
    if order == [] then []
    else if order[0] == id then Without(order[1..], id)
    else [order[0]] + Without(order[1..], id)
  }

  function StartStep(s: State, id: Id): State {
    State(
      s.active[id := id in s.pending],
      s.pending,
      s.completed - {id},
      if id in s.completed then Without(s.order, id) else s.order)
  }

  function CancelStep(s: State, id: Id): State {
    if id in s.active then s.(active := s.active[id := true])
    else if id !in s.completed then s.(pending := s.pending + {id})
    else s
  }

  /** The oldest ids are forgotten until at most 4096 remain. */
  function Expire(completed: set<Id>, order: seq<Id>): (set<Id>, seq<Id>) {
    if |order| <= MaxCompleted then (completed, order) else Expire(completed - {order[0]}, order[1..])
  }

  function FinishStep(s: State, id: Id): State {
    var (completed, order) :=
      Expire(s.completed + {id}, if id in s.completed then s.order else s.order + [id]);
    State(s.active - {id}, s.pending - {id}, completed, order)
  }

  datatype Operation = Start(id: Id) | Cancel(id: Id) | Finish(id: Id)

  function Step(s: State, op: Operation): State {
    match op
    case Start(id) => StartStep(s, id)
    case Cancel(id) => CancelStep(s, id)
    case Finish(id) => FinishStep(s, id)
  }

  function Run(trace: seq<Operation>): State {
    if trace == [] then Empty else Step(Run(trace[..|trace| - 1]), trace[|trace| - 1])
  }

  // ----- the shared object -----

  class Token {
    var cancelled: bool

    constructor ()
      ensures !cancelled
    {
      cancelled := false;
    }

    method Cancel()
      modifies this
      ensures cancelled
    {
      cancelled := true;
    }
  }

  class RequestCancellations {
    var active: map<Id, Token>
    var pending: set<Id>
    var completed: set<Id>
    var completedOrder: seq<Id>

    constructor ()
      ensures Valid() && Snapshot() == Empty
    {
      active, pending, completed, completedOrder := map[], {}, {}, [];
    }

    /** No two requests share a token. */
    ghost predicate Valid()
      reads this
    {
      forall i, j :: i in active && j in active && i != j ==> active[i] != active[j]
    }

    ghost function Snapshot(): State
      reads this, active.Values
    {
      State(map id | id in active :: active[id].cancelled, pending, completed, completedOrder)
    }

    method StartRequest(id: Id) returns (token: Token)
      requires Valid()
      modifies this
      ensures Valid() && Snapshot() == StartStep(old(Snapshot()), id)
      ensures fresh(token) && active == old(active)[id := token]
    {
      token := new Token();
      if id in completed {
        completed := completed - {id};
        completedOrder := Without(completedOrder, id);
      }
      if id in pending {
        token.Cancel();
      }
      assert Snapshot().active == old(Snapshot()).active;
      Insert(id, token);
    }

    /** `active.insert`: no other request has the token. */
    method Insert(id: Id, token: Token)
      requires Valid() && token !in active.Values
      modifies this`active
      ensures Valid() && active == old(active)[id := token]
      ensures Snapshot() == old(Snapshot()).(active := old(Snapshot()).active[id := token.cancelled])
    {
      active := active[id := token];
      assert Snapshot().active == old(Snapshot()).active[id := token.cancelled];
    }

    method CancelRequest(id: Id)
      requires Valid()
      modifies this`pending, if id in active then {active[id]} else {}
      ensures Valid() && Snapshot() == CancelStep(old(Snapshot()), id)
    {
      if id in active {
        active[id].Cancel();
        assert Snapshot().active == CancelStep(old(Snapshot()), id).active;
      } else if id !in completed {
        pending := pending + {id};
      }
    }

    method FinishRequest(id: Id)
      requires Valid()
      modifies this
      ensures Valid() && Snapshot() == FinishStep(old(Snapshot()), id)
      ensures active == old(active) - {id}
    {
      active := active - {id};
      pending := pending - {id};
      if id !in completed {
        completed := completed + {id};
        completedOrder := completedOrder + [id];
      }
      assert completed == old(completed) + {id};
      ghost var result := Expire(completed, completedOrder);
      while |completedOrder| > MaxCompleted
        invariant active == old(active) - {id} && pending == old(pending) - {id}
        invariant Expire(completed, completedOrder) == result
        decreases |completedOrder|
      {
        var expired := completedOrder[0];
        completedOrder := completedOrder[1..];
        completed := completed - {expired};
      }
      assert Snapshot().active == FinishStep(old(Snapshot()), id).active;
    }
  }

  // ----- what every interleaving keeps -----

  ghost predicate Lists(order: seq<Id>, ids: set<Id>) {
    forall id :: id in order <==> id in ids
  }

  ghost predicate Invariant(s: State) {
    && Distinct(s.order)
    && Lists(s.order, s.completed)
    && |s.order| <= MaxCompleted
    && s.completed !! s.active.Keys
    && s.completed !! s.pending
  }

  lemma {:induction false} WithoutMeaning(order: seq<Id>, id: Id)
    ensures |Without(order, id)| <= |order|
    ensures forall x :: x in Without(order, id) <==> x in order && x != id
    ensures Distinct(order) ==> Distinct(Without(order, id))
  {
    if order != [] {
      var rest := Without(order[1..], id);
      WithoutMeaning(order[1..], id);
      if Distinct(order) {
        forall k | 0 <= k < |rest| ensures rest[k] != order[0] { assert rest[k] in order[1..]; }
      }
      assert forall x :: x in order <==> x == order[0] || x in order[1..];
    }
  }

  lemma {:induction false} ExpireMeaning(completed: set<Id>, order: seq<Id>)
    requires Distinct(order) && Lists(order, completed)
    ensures var (c, o) := Expire(completed, order);
      Distinct(o) && Lists(o, c) && |o| <= MaxCompleted && c <= completed
    decreases |order|
  {
    if |order| > MaxCompleted {
      assert forall x :: x in order <==> x == order[0] || x in order[1..];
      assert forall i :: 0 < i < |order| ==> order[i] != order[0];
      ExpireMeaning(completed - {order[0]}, order[1..]);
    }
  }

  lemma StepKeeps(s: State, op: Operation)
    requires Invariant(s)
    ensures Invariant(Step(s, op))
  {
    match op
    case Start(id) => WithoutMeaning(s.order, id);
    case Cancel(id) =>
    case Finish(id) =>
      var order := if id in s.completed then s.order else s.order + [id];
      assert Distinct(order) && Lists(order, s.completed + {id});
      ExpireMeaning(s.completed + {id}, order);
  }

  /** In every interleaving the history is duplicate-free, lists exactly the completed ids, is bounded,
      and is disjoint from the running and the pending requests. */
  lemma {:induction false} InvariantAlways(trace: seq<Operation>)
    ensures Invariant(Run(trace))
  {
    if trace != [] {
      InvariantAlways(trace[..|trace| - 1]);
      StepKeeps(Run(trace[..|trace| - 1]), trace[|trace| - 1]);
    }
  }

  // ----- when a request is cancelled -----

  predicate NotAfter(trace: seq<Operation>, j: nat, op: Operation) {
    forall k :: j < k < |trace| ==> trace[k] != op
  }

  /** Some cancellation since the last finish found the id neither running nor in the history. */
  ghost predicate CancelledWaiting(trace: seq<Operation>, id: Id) {
    exists j :: 0 <= j < |trace| && trace[j] == Cancel(id) && NotAfter(trace, j, Finish(id))
      && id !in Run(trace[..j]).active && id !in Run(trace[..j]).completed
  }

  /** Some cancellation arrived after the last start, with no finish in between. */
  ghost predicate CancelledRunning(trace: seq<Operation>, id: Id) {
    exists j :: 0 <= j < |trace| && trace[j] == Cancel(id)
      && NotAfter(trace, j, Start(id)) && NotAfter(trace, j, Finish(id)) && id in Run(trace[..j]).active
  }

  ghost predicate Running(trace: seq<Operation>, id: Id) {
    exists j :: 0 <= j < |trace| && trace[j] == Start(id) && NotAfter(trace, j, Finish(id))
  }

  /** One more operation: what an event at an earlier place needs to stay the last of its kind. */
  lemma NotAfterStep(trace: seq<Operation>, j: nat, op: Operation)
    requires j < |trace|
    ensures NotAfter(trace, j, op) <==>
      j == |trace| - 1 || (NotAfter(trace[..|trace| - 1], j, op) && trace[|trace| - 1] != op)
  {
    var n := |trace| - 1;
    if j < n && NotAfter(trace, j, op) {
      assert forall k :: j < k < n ==> trace[..n][k] == trace[k];
    }
    if j < n && NotAfter(trace[..n], j, op) && trace[n] != op {
      forall k | j < k < |trace| ensures trace[k] != op { if k < n { assert trace[..n][k] == trace[k]; } }
    }
  }

  lemma WaitingStep(trace: seq<Operation>, id: Id)
    requires trace != []
    ensures var before, last := trace[..|trace| - 1], trace[|trace| - 1];
      CancelledWaiting(trace, id) <==>
        || (last == Cancel(id) && id !in Run(before).active && id !in Run(before).completed)
        || (last != Finish(id) && CancelledWaiting(before, id))
  {
    var n := |trace| - 1;
    var before := trace[..n];
    if CancelledWaiting(trace, id) {
      var j :| 0 <= j < |trace| && trace[j] == Cancel(id) && NotAfter(trace, j, Finish(id))
        && id !in Run(trace[..j]).active && id !in Run(trace[..j]).completed;
      NotAfterStep(trace, j, Finish(id));
      if j < n { assert before[j] == trace[j] && before[..j] == trace[..j]; }
    }
    if trace[n] != Finish(id) && CancelledWaiting(before, id) {
      var j :| 0 <= j < n && before[j] == Cancel(id) && NotAfter(before, j, Finish(id))
        && id !in Run(before[..j]).active && id !in Run(before[..j]).completed;
      NotAfterStep(trace, j, Finish(id));
      assert trace[j] == before[j] && before[..j] == trace[..j];
    }
    if trace[n] == Cancel(id) && id !in Run(before).active && id !in Run(before).completed {
      NotAfterStep(trace, n, Finish(id));
    }
  }

  lemma {:induction false} PendingExactly(trace: seq<Operation>, id: Id)
    ensures id in Run(trace).pending <==> CancelledWaiting(trace, id)
  {
    if trace != [] {
      PendingExactly(trace[..|trace| - 1], id);
      WaitingStep(trace, id);
    }
  }

  lemma RunningStep(trace: seq<Operation>, id: Id)
    requires trace != []
    ensures var before, last := trace[..|trace| - 1], trace[|trace| - 1];
      Running(trace, id) <==> last == Start(id) || (last != Finish(id) && Running(before, id))
  {
    var n := |trace| - 1;
    var before := trace[..n];
    if Running(trace, id) {
      var j :| 0 <= j < |trace| && trace[j] == Start(id) && NotAfter(trace, j, Finish(id));
      NotAfterStep(trace, j, Finish(id));
      if j < n { assert before[j] == trace[j]; }
    }
    if trace[n] != Finish(id) && Running(before, id) {
      var j :| 0 <= j < n && before[j] == Start(id) && NotAfter(before, j, Finish(id));
      NotAfterStep(trace, j, Finish(id));
      assert trace[j] == before[j];
    }
    if trace[n] == Start(id) { NotAfterStep(trace, n, Finish(id)); }
  }

  lemma {:induction false} ActiveExactly(trace: seq<Operation>, id: Id)
    ensures id in Run(trace).active <==> Running(trace, id)
  {
    if trace != [] {
      ActiveExactly(trace[..|trace| - 1], id);
      RunningStep(trace, id);
    }
  }

  lemma CancelledRunningStep(trace: seq<Operation>, id: Id)
    requires trace != []
    ensures var before, last := trace[..|trace| - 1], trace[|trace| - 1];
      CancelledRunning(trace, id) <==>
        || (last == Cancel(id) && id in Run(before).active)
        || (last != Finish(id) && last != Start(id) && CancelledRunning(before, id))
  {
    var n := |trace| - 1;
    var before := trace[..n];
    if CancelledRunning(trace, id) {
      var j :| 0 <= j < |trace| && trace[j] == Cancel(id)
        && NotAfter(trace, j, Start(id)) && NotAfter(trace, j, Finish(id)) && id in Run(trace[..j]).active;
      NotAfterStep(trace, j, Finish(id));
      NotAfterStep(trace, j, Start(id));
      if j < n { assert before[j] == trace[j] && before[..j] == trace[..j]; }
    }
    if trace[n] != Finish(id) && trace[n] != Start(id) && CancelledRunning(before, id) {
      var j :| 0 <= j < n && before[j] == Cancel(id)
        && NotAfter(before, j, Start(id)) && NotAfter(before, j, Finish(id)) && id in Run(before[..j]).active;
      NotAfterStep(trace, j, Finish(id));
      NotAfterStep(trace, j, Start(id));
      assert trace[j] == before[j] && before[..j] == trace[..j];
    }
    if trace[n] == Cancel(id) && id in Run(before).active {
      NotAfterStep(trace, n, Finish(id));
      NotAfterStep(trace, n, Start(id));
    }
  }

  /** In every interleaving `start` returns a cancelled token exactly when some cancellation since that
      id's last finish found it neither running nor in the retained history. */
  lemma StartCancelledExactly(trace: seq<Operation>, id: Id)
    ensures Run(trace + [Start(id)]).active[id] <==> CancelledWaiting(trace, id)
  {
    assert (trace + [Start(id)])[..|trace|] == trace;
    PendingExactly(trace, id);
  }

  /** The token of a running request is cancelled exactly by a cancellation that waited for its start
      or that came while it was running. */
  lemma {:induction false} TokenCancelledExactly(trace: seq<Operation>, id: Id)
    requires Running(trace, id)
    ensures id in Run(trace).active
    ensures Run(trace).active[id] <==> CancelledWaiting(trace, id) || CancelledRunning(trace, id)
  {
    ActiveExactly(trace, id);
    var before, last := trace[..|trace| - 1], trace[|trace| - 1];
    WaitingStep(trace, id);
    CancelledRunningStep(trace, id);
    RunningStep(trace, id);
    if last == Start(id) {
      PendingExactly(before, id);
    } else {
      ActiveExactly(before, id);
      TokenCancelledExactly(before, id);
    }
  }

  // ----- one request -----

  predicate OnlyCancels(ops: seq<Operation>) { forall i :: 0 <= i < |ops| ==> ops[i].Cancel? }

  /** `request` answers "cancelled" exactly when the id was pending at its start or the reader
      cancelled it before the last look at the token; the finish forgets both. */
  lemma {:induction false} RequestCancelledExactly(trace: seq<Operation>, id: Id, meanwhile: seq<Operation>)
    requires OnlyCancels(meanwhile)
    ensures var looked := Run(trace + [Start(id)] + meanwhile);
      && id in looked.active
      && (looked.active[id] <==> CancelledWaiting(trace, id) || Cancel(id) in meanwhile)
    ensures var after := Run(trace + [Start(id)] + meanwhile + [Finish(id)]);
      id !in after.active && id !in after.pending && id in after.completed
  {
    var started := trace + [Start(id)];
    if meanwhile == [] {
      assert started + meanwhile == started;
      StartCancelledExactly(trace, id);
    } else {
      var init, last := meanwhile[..|meanwhile| - 1], meanwhile[|meanwhile| - 1];
      RequestCancelledExactly(trace, id, init);
      assert (started + meanwhile)[..|started + meanwhile| - 1] == started + init;
      assert forall op :: op in meanwhile <==> op in init || op == last;
    }
    var looked := started + meanwhile;
    assert (looked + [Finish(id)])[..|looked|] == looked;
    InvariantAlways(looked);
    FinishRetains(Run(looked), id);
  }

  lemma FinishRetains(s: State, id: Id)
    requires Invariant(s) && id in s.active
    ensures id in FinishStep(s, id).completed
  {
    ExpireKeepsLast(s.completed + {id}, s.order + [id]);
  }

  lemma {:induction false} ExpireKeepsLast(completed: set<Id>, order: seq<Id>)
    requires order != [] && Distinct(order) && order[|order| - 1] in completed
    ensures order[|order| - 1] in Expire(completed, order).0
    decreases |order|
  {
    if |order| > MaxCompleted {
      ExpireKeepsLast(completed - {order[0]}, order[1..]);
    }
  }
}
