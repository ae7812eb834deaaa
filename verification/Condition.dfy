/** Reduced ordered decision diagrams (src/domain/condition.rs). */
module Conditions {
  import opened Orders
  import opened Outcomes

  datatype Truth = IsFalse | IsTrue | Unknown

  datatype Condition =
    | False
    | True
    | Branch(variable: string, low: Condition, high: Condition)

  datatype Operation = And | Or

  // ----- operations -----

  function MakeBranch(variable: string, low: Condition, high: Condition): Condition {
    if low == high then low else Branch(variable, low, high)
  }

  function Atom(variable: string): Condition {
    MakeBranch(variable, False, True)
  }

  function Not(c: Condition): Condition {
    match c
    case False => True
    case True => False
    case Branch(v, low, high) => MakeBranch(v, Not(low), Not(high))
  }

  function Apply(op: Operation, left: Condition, right: Condition): Condition {
    if left == right then left
    else match (op, left, right)
      case (And, False, _) => False
      case (And, _, False) => False
      case (And, True, value) => value
      case (And, value, True) => value
      case (Or, False, value) => value
      case (Or, value, False) => value
      case (Or, True, _) => True
      case (Or, _, True) => True
      case (_, Branch(lv, ll, lh), Branch(rv, rl, rh)) =>
        if StringLess(lv, rv) then MakeBranch(lv, Apply(op, ll, right), Apply(op, lh, right))
        else if lv == rv then MakeBranch(lv, Apply(op, ll, rl), Apply(op, lh, rh))
        else MakeBranch(rv, Apply(op, left, rl), Apply(op, left, rh))
  }

  function Conjunction(left: Condition, right: Condition): Condition { Apply(And, left, right) }

  function Disjunction(left: Condition, right: Condition): Condition { Apply(Or, left, right) }

  predicate Satisfiable(c: Condition) { c != False }

  predicate Implies(premise: Condition, conclusion: Condition) {
    !Satisfiable(Conjunction(premise, Not(conclusion)))
  }

  function Evaluate(c: Condition, lookup: string -> Option<bool>): Truth {
    match c
    case False => IsFalse
    case True => IsTrue
    case Branch(v, low, high) =>
      match lookup(v)
      case Some(false) => Evaluate(low, lookup)
      case Some(true) => Evaluate(high, lookup)
      case None =>
        var l := Evaluate(low, lookup);
        var h := Evaluate(high, lookup);
        if l == h then l else Unknown
  }

  /** The recursive collector; the ordered set it fills is threaded through as a sorted sequence. */
  function Collect(c: Condition, output: seq<string>): seq<string> {
    match c
    case False => output
    case True => output
    case Branch(v, low, high) => Collect(high, Collect(low, Insert(StringLess, v, output)))
  }

  function Atoms(c: Condition): seq<string> { Collect(c, []) }

  // ----- meaning -----

  type Assignment = string -> bool

  function Value(c: Condition, env: Assignment): bool {
    match c
    case False => false
    case True => true
    case Branch(v, low, high) => if env(v) then Value(high, env) else Value(low, env)
  }

  function Set(env: Assignment, v: string, bit: bool): Assignment {
    x => if x == v then bit else env(x)
  }

  /** Every variable of `c` comes after `v`, judged by the root of an ordered diagram. */
  predicate After(v: string, c: Condition) {
    c.Branch? ==> StringLess(v, c.variable)
  }

  predicate Ordered(c: Condition) {
    c.Branch? ==> After(c.variable, c.low) && After(c.variable, c.high) && Ordered(c.low) && Ordered(c.high)
  }

  predicate Reduced(c: Condition) {
    c.Branch? ==> c.low != c.high && Reduced(c.low) && Reduced(c.high)
  }

  predicate Canonical(c: Condition) { Ordered(c) && Reduced(c) }

  predicate Mentions(c: Condition, v: string) {
    c.Branch? && (c.variable == v || Mentions(c.low, v) || Mentions(c.high, v))
  }

  // ----- canonicity -----

  lemma {:induction false} AfterMentions(c: Condition, v: string, w: string)
    requires Ordered(c) && After(v, c) && Mentions(c, w)
    ensures StringLess(v, w)
  {
    StringOrder();
    if c.variable != w {
      AfterMentions(if Mentions(c.low, w) then c.low else c.high, c.variable, w);
    }
  }

  /** The value depends only on the mentioned variables. */
  lemma {:induction false} SameOnMentioned(c: Condition, e: Assignment, f: Assignment)
    requires forall x :: Mentions(c, x) ==> e(x) == f(x)
    ensures Value(c, e) == Value(c, f)
  {
    if c.Branch? {
      assert Mentions(c, c.variable);
      SameOnMentioned(c.low, e, f);
      SameOnMentioned(c.high, e, f);
    }
  }

  lemma SetLater(c: Condition, env: Assignment, v: string, bit: bool)
    requires Ordered(c) && After(v, c)
    ensures Value(c, Set(env, v, bit)) == Value(c, env)
  {
    StringOrder();
    forall x | Mentions(c, x) ensures x != v { AfterMentions(c, v, x); }
    SameOnMentioned(c, Set(env, v, bit), env);
  }

  function Cofactor(c: Condition, v: string, bit: bool): Condition {
    if c.Branch? && c.variable == v then (if bit then c.high else c.low) else c
  }

  lemma CofactorValue(c: Condition, v: string, bit: bool, env: Assignment)
    requires Ordered(c) && (After(v, c) || (c.Branch? && c.variable == v))
    ensures Value(Cofactor(c, v, bit), env) == Value(c, Set(env, v, bit))
  {
    SetLater(Cofactor(c, v, bit), env, v, bit);
  }

  /** The first variable of two diagrams that are not both leaves. */
  function TopVariable(a: Condition, b: Condition): string
    requires a.Branch? || b.Branch?
  {
    if a.Branch? && (b.Branch? ==> StringLess(a.variable, b.variable)) then a.variable else b.variable
  }

  lemma TopIsFirst(a: Condition, b: Condition)
    requires a.Branch? || b.Branch?
    ensures var v := TopVariable(a, b);
      && (After(v, a) || (a.Branch? && a.variable == v))
      && (After(v, b) || (b.Branch? && b.variable == v))
      && ((a.Branch? && a.variable == v) || (b.Branch? && b.variable == v))
  {
    if a.Branch? && b.Branch? { StringConnex(a.variable, b.variable); }
  }

  /** Two different canonical diagrams are told apart by some assignment. */
  lemma {:induction false} Distinguish(a: Condition, b: Condition) returns (env: Assignment)
    requires Canonical(a) && Canonical(b) && a != b
    ensures Value(a, env) != Value(b, env)
    decreases a, b
  {
    if !a.Branch? && !b.Branch? { return _ => false; }
    var v := TopVariable(a, b);
    TopIsFirst(a, b);
    StringIrreflexive(v);
    var bit := Cofactor(a, v, false) == Cofactor(b, v, false);
    env := Distinguish(Cofactor(a, v, bit), Cofactor(b, v, bit));
    CofactorValue(a, v, bit, env);
    CofactorValue(b, v, bit, env);
    env := Set(env, v, bit);
  }

  /** Structural equality decides equivalence. */
  lemma Canonicity(a: Condition, b: Condition)
    requires Canonical(a) && Canonical(b)
    ensures a == b <==> forall env: Assignment :: Value(a, env) == Value(b, env)
  {
    if a != b { var env := Distinguish(a, b); }
  }

  // ----- the operations keep diagrams canonical and compute pointwise -----

  lemma {:induction false} NotCorrect(c: Condition)
    ensures forall env: Assignment :: Value(Not(c), env) == !Value(c, env)
    ensures Ordered(c) ==> Ordered(Not(c))
    ensures Reduced(c) ==> Reduced(Not(c))
    ensures forall v :: Ordered(c) && After(v, c) ==> After(v, Not(c))
  {
    if c.Branch? {
      NotCorrect(c.low);
      NotCorrect(c.high);
      StringOrder();
    }
  }

  function Combine(op: Operation, x: bool, y: bool): bool {
    if op == And then x && y else x || y
  }

  /** Pointwise conjunction or disjunction of all diagrams, ordered or not. */
  lemma {:induction false} ApplyPointwise(op: Operation, a: Condition, b: Condition, env: Assignment)
    ensures Value(Apply(op, a, b), env) == Combine(op, Value(a, env), Value(b, env))
  {
    if a != b && a.Branch? && b.Branch? {
      if StringLess(a.variable, b.variable) {
        ApplyPointwise(op, a.low, b, env);
        ApplyPointwise(op, a.high, b, env);
      } else if a.variable == b.variable {
        ApplyPointwise(op, a.low, b.low, env);
        ApplyPointwise(op, a.high, b.high, env);
      } else {
        ApplyPointwise(op, a, b.low, env);
        ApplyPointwise(op, a, b.high, env);
      }
    }
  }

  lemma {:induction false} ApplyOrdered(op: Operation, a: Condition, b: Condition)
    requires Ordered(a) && Ordered(b)
    ensures Ordered(Apply(op, a, b))
    ensures forall v :: After(v, a) && After(v, b) ==> After(v, Apply(op, a, b))
  {
    if a != b && a.Branch? && b.Branch? {
      StringOrder();
      StringConnex(a.variable, b.variable);
      if StringLess(a.variable, b.variable) {
        ApplyOrdered(op, a.low, b);
        ApplyOrdered(op, a.high, b);
      } else if a.variable == b.variable {
        ApplyOrdered(op, a.low, b.low);
        ApplyOrdered(op, a.high, b.high);
      } else {
        ApplyOrdered(op, a, b.low);
        ApplyOrdered(op, a, b.high);
      }
    }
  }

  lemma {:induction false} ApplyReduced(op: Operation, a: Condition, b: Condition)
    requires Reduced(a) && Reduced(b)
    ensures Reduced(Apply(op, a, b))
  {
    if a != b && a.Branch? && b.Branch? {
      if StringLess(a.variable, b.variable) {
        ApplyReduced(op, a.low, b);
        ApplyReduced(op, a.high, b);
      } else if a.variable == b.variable {
        ApplyReduced(op, a.low, b.low);
        ApplyReduced(op, a.high, b.high);
      } else {
        ApplyReduced(op, a, b.low);
        ApplyReduced(op, a, b.high);
      }
    }
  }

  lemma ApplyCanonical(op: Operation, a: Condition, b: Condition)
    requires Canonical(a) && Canonical(b)
    ensures Canonical(Apply(op, a, b))
    ensures forall env: Assignment :: Value(Apply(op, a, b), env) == Combine(op, Value(a, env), Value(b, env))
  {
    ApplyOrdered(op, a, b);
    ApplyReduced(op, a, b);
    forall env: Assignment { ApplyPointwise(op, a, b, env); }
  }

  // ----- decision procedures -----

  lemma SatisfiableExact(c: Condition)
    requires Canonical(c)
    ensures Satisfiable(c) <==> exists env: Assignment :: Value(c, env)
  {
    if c != False { var env := Distinguish(c, False); assert Value(c, env); }
  }

  ghost predicate Entails(a: Condition, b: Condition) {
    forall env: Assignment :: Value(a, env) ==> Value(b, env)
  }

  lemma ImpliesExact(a: Condition, b: Condition)
    requires Canonical(a) && Canonical(b)
    ensures Implies(a, b) <==> Entails(a, b)
  {
    NotCorrect(b);
    ApplyCanonical(And, a, Not(b));
    SatisfiableExact(Conjunction(a, Not(b)));
    if env: Assignment :| Value(a, env) && !Value(b, env) {
      assert Value(Conjunction(a, Not(b)), env);
    }
  }

  /** Conditions that were built by the public operations only. */
  datatype Expression =
    | Constant(bit: bool)
    | Variable(name: string)
    | Negation(body: Expression)
    | Binary(op: Operation, left: Expression, right: Expression)

  function Build(e: Expression): Condition {
    match e
    case Constant(bit) => if bit then True else False
    case Variable(name) => Atom(name)
    case Negation(body) => Not(Build(body))
    case Binary(op, left, right) => Apply(op, Build(left), Build(right))
  }

  predicate Meaning(e: Expression, env: Assignment) {
    match e
    case Constant(bit) => bit
    case Variable(name) => env(name)
    case Negation(body) => !Meaning(body, env)
    case Binary(op, left, right) => Combine(op, Meaning(left, env), Meaning(right, env))
  }

  lemma {:induction false} BuildCorrect(e: Expression)
    ensures Canonical(Build(e))
    ensures forall env: Assignment :: Value(Build(e), env) == Meaning(e, env)
  {
    match e
    case Constant(_) =>
    case Variable(_) =>
    case Negation(body) =>
      BuildCorrect(body);
      NotCorrect(Build(body));
    case Binary(op, left, right) =>
      BuildCorrect(left);
      BuildCorrect(right);
      ApplyCanonical(op, Build(left), Build(right));
  }

  ghost predicate Equivalent(e: Expression, f: Expression) {
    forall env: Assignment :: Meaning(e, env) == Meaning(f, env)
  }

  /** Whatever the order in which it is parsed or combined, a formula has one diagram per meaning. */
  lemma OneDiagramPerMeaning(e: Expression, f: Expression)
    ensures Build(e) == Build(f) <==> Equivalent(e, f)
  {
    BuildCorrect(e);
    BuildCorrect(f);
    if Build(e) != Build(f) {
      var env := Distinguish(Build(e), Build(f));
      assert Meaning(e, env) != Meaning(f, env);
    } else {
      forall env: Assignment ensures Meaning(e, env) == Meaning(f, env) {
        assert Value(Build(e), env) == Meaning(e, env);
      }
    }
  }

  // ----- Boolean laws, as structural equalities -----

  lemma ApplyCommutes(op: Operation, a: Condition, b: Condition)
    requires Canonical(a) && Canonical(b)
    ensures Apply(op, a, b) == Apply(op, b, a)
  {
    ApplyCanonical(op, a, b);
    ApplyCanonical(op, b, a);
    Canonicity(Apply(op, a, b), Apply(op, b, a));
  }

  lemma ApplyAssociates(op: Operation, a: Condition, b: Condition, c: Condition)
    requires Canonical(a) && Canonical(b) && Canonical(c)
    ensures Apply(op, Apply(op, a, b), c) == Apply(op, a, Apply(op, b, c))
  {
    ApplyCanonical(op, a, b);
    ApplyCanonical(op, b, c);
    ApplyCanonical(op, Apply(op, a, b), c);
    ApplyCanonical(op, a, Apply(op, b, c));
    Canonicity(Apply(op, Apply(op, a, b), c), Apply(op, a, Apply(op, b, c)));
  }

  function Dual(op: Operation): Operation { if op == And then Or else And }

  lemma ApplyDistributes(op: Operation, a: Condition, b: Condition, c: Condition)
    requires Canonical(a) && Canonical(b) && Canonical(c)
    ensures Apply(op, a, Apply(Dual(op), b, c)) == Apply(Dual(op), Apply(op, a, b), Apply(op, a, c))
  {
    ApplyCanonical(Dual(op), b, c);
    ApplyCanonical(op, a, b);
    ApplyCanonical(op, a, c);
    ApplyCanonical(op, a, Apply(Dual(op), b, c));
    ApplyCanonical(Dual(op), Apply(op, a, b), Apply(op, a, c));
    Canonicity(Apply(op, a, Apply(Dual(op), b, c)), Apply(Dual(op), Apply(op, a, b), Apply(op, a, c)));
  }

  lemma DeMorgan(op: Operation, a: Condition, b: Condition)
    requires Canonical(a) && Canonical(b)
    ensures Not(Apply(op, a, b)) == Apply(Dual(op), Not(a), Not(b))
  {
    NotCorrect(a);
    NotCorrect(b);
    ApplyCanonical(op, a, b);
    NotCorrect(Apply(op, a, b));
    ApplyCanonical(Dual(op), Not(a), Not(b));
    Canonicity(Not(Apply(op, a, b)), Apply(Dual(op), Not(a), Not(b)));
  }

  lemma DoubleNegation(a: Condition)
    requires Canonical(a)
    ensures Not(Not(a)) == a
  {
    NotCorrect(a);
    NotCorrect(Not(a));
    Canonicity(Not(Not(a)), a);
  }

  lemma Complement(a: Condition)
    requires Canonical(a)
    ensures Conjunction(a, Not(a)) == False && Disjunction(a, Not(a)) == True
  {
    NotCorrect(a);
    ApplyCanonical(And, a, Not(a));
    ApplyCanonical(Or, a, Not(a));
    Canonicity(Conjunction(a, Not(a)), False);
    Canonicity(Disjunction(a, Not(a)), True);
  }

  // ----- evaluation under a partial lookup -----

  type Lookup = string -> Option<bool>

  ghost predicate Completes(env: Assignment, lookup: Lookup) {
    forall x :: lookup(x).Some? ==> env(x) == lookup(x).value
  }

  ghost predicate Extends(more: Lookup, lookup: Lookup) {
    forall x :: lookup(x).Some? ==> more(x) == lookup(x)
  }

  lemma {:induction false} EvaluateSound(c: Condition, lookup: Lookup, env: Assignment)
    requires Completes(env, lookup)
    ensures Evaluate(c, lookup) == IsTrue ==> Value(c, env)
    ensures Evaluate(c, lookup) == IsFalse ==> !Value(c, env)
  {
    if c.Branch? {
      EvaluateSound(c.low, lookup, env);
      EvaluateSound(c.high, lookup, env);
    }
  }

  /** An answer that is not `bit` has a completion with the other value. */
  lemma {:induction false} EvaluateWitness(c: Condition, lookup: Lookup, bit: bool) returns (env: Assignment)
    requires Ordered(c)
    requires Evaluate(c, lookup) != (if bit then IsTrue else IsFalse)
    ensures Completes(env, lookup) && Value(c, env) != bit
  {
    match c
    case False => env := x => lookup(x) == Some(true);
    case True => env := x => lookup(x) == Some(true);
    case Branch(v, low, high) =>
      StringIrreflexive(v);
      if lookup(v).Some? {
        env := EvaluateWitness(if lookup(v).value then high else low, lookup, bit);
      } else {
        var side := Evaluate(low, lookup) == (if bit then IsTrue else IsFalse);
        var child := if side then high else low;
        env := EvaluateWitness(child, lookup, bit);
        SetLater(child, env, v, side);
        env := Set(env, v, side);
      }
  }

  /** The three-valued evaluator is exact on every ordered diagram. */
  lemma EvaluateExact(c: Condition, lookup: Lookup)
    requires Ordered(c)
    ensures Evaluate(c, lookup) == IsTrue <==> forall env: Assignment :: Completes(env, lookup) ==> Value(c, env)
    ensures Evaluate(c, lookup) == IsFalse <==> forall env: Assignment :: Completes(env, lookup) ==> !Value(c, env)
    ensures Evaluate(c, lookup) == Unknown <==>
      exists e: Assignment, f: Assignment :: Completes(e, lookup) && Completes(f, lookup) && Value(c, e) != Value(c, f)
  {
    forall env: Assignment | Completes(env, lookup) { EvaluateSound(c, lookup, env); }
    if Evaluate(c, lookup) != IsTrue { var e := EvaluateWitness(c, lookup, true); }
    if Evaluate(c, lookup) != IsFalse { var e := EvaluateWitness(c, lookup, false); }
    if Evaluate(c, lookup) == Unknown {
      var e := EvaluateWitness(c, lookup, true);
      var f := EvaluateWitness(c, lookup, false);
      assert Value(c, e) != Value(c, f);
    }
  }

  lemma EvaluateMonotone(c: Condition, lookup: Lookup, more: Lookup)
    requires Ordered(c) && Extends(more, lookup) && Evaluate(c, lookup) != Unknown
    ensures Evaluate(c, more) == Evaluate(c, lookup)
  {
    EvaluateExact(c, lookup);
    EvaluateExact(c, more);
    assert forall env: Assignment :: Completes(env, more) ==> Completes(env, lookup);
  }

  // ----- essential variables -----

  ghost predicate Essential(c: Condition, v: string) {
    exists env: Assignment :: Value(c, Set(env, v, false)) != Value(c, Set(env, v, true))
  }

  lemma {:induction false} MentionedIsEssential(c: Condition, v: string) returns (env: Assignment)
    requires Canonical(c) && Mentions(c, v)
    ensures Value(c, Set(env, v, false)) != Value(c, Set(env, v, true))
  {
    StringIrreflexive(v);
    if c.variable == v {
      env := Distinguish(c.low, c.high);
      SetLater(c.low, env, v, false);
      SetLater(c.high, env, v, true);
    } else {
      var side := !Mentions(c.low, v);
      var child := if side then c.high else c.low;
      AfterMentions(child, c.variable, v);
      var inner := MentionedIsEssential(child, v);
      env := Set(inner, c.variable, side);
      forall bit ensures Value(c, Set(env, v, bit)) == Value(child, Set(inner, v, bit)) {
        SetLater(child, Set(inner, v, bit), c.variable, side);
        SameOnMentioned(child, Set(env, v, bit), Set(Set(inner, v, bit), c.variable, side));
      }
      assert Value(c, Set(env, v, false)) == Value(child, Set(inner, v, false));
    }
  }

  lemma EssentialExact(c: Condition, v: string)
    requires Canonical(c)
    ensures Essential(c, v) <==> Mentions(c, v)
  {
    if Mentions(c, v) {
      var env := MentionedIsEssential(c, v);
    } else {
      forall env: Assignment { SameOnMentioned(c, Set(env, v, false), Set(env, v, true)); }
    }
  }

  lemma {:induction false} CollectMeaning(c: Condition, output: seq<string>)
    requires Ascending(StringLess, output)
    ensures Ascending(StringLess, Collect(c, output))
    ensures forall v :: v in Collect(c, output) <==> v in output || Mentions(c, v)
  {
    if c.Branch? {
      StringOrder();
      var first := Insert(StringLess, c.variable, output);
      InsertKeepsOrder(StringLess, c.variable, output);
      CollectMeaning(c.low, first);
      CollectMeaning(c.high, Collect(c.low, first));
    }
  }

  /** `atoms` lists, strictly sorted, exactly the variables on which the condition depends. */
  lemma AtomsExact(c: Condition)
    requires Canonical(c)
    ensures Ascending(StringLess, Atoms(c))
    ensures forall v :: v in Atoms(c) <==> Essential(c, v)
  {
    CollectMeaning(c, []);
    forall v ensures v in Atoms(c) <==> Essential(c, v) { EssentialExact(c, v); }
  }
}
