/** Abstract values and their join, as functions (src/domain/abstract_value.rs). JoinAssign shows that the
    in-place forms compute these functions, JoinSound that they keep all concrete values, JoinStable when
    one pass of joins is enough, and JoinOrder and RunOrder when the order of the joins matters. */
module AbstractValues {
  import opened Orders
  import opened Outcomes
  import opened Text

  datatype ValueType = Never | NullType | BoolType | NumberType | StringType | ListType | ObjectType | Dynamic

  datatype AbstractTruth = IsFalse | IsTrue | Maybe

  datatype StringValue =
    | NoString
    | Constants(values: seq<string>)
    | Affix(prefix: Option<string>, suffix: Option<string>)
    | Pattern(pattern: string)
    | AnyString

  datatype Reason =
    | UnsupportedSyntax(detail: string)
    | ExternalState(detail: string)
    | UnresolvedDependency(detail: string)
    | RecursiveCall(detail: string)
    | DynamicString(detail: string)
    | PhaseUnavailable(detail: string)
    | MissingEvidence(detail: string)
    | ResourceLimit(detail: string)
  {
    function Kind(): nat {
      match this
      case UnsupportedSyntax(_) => 0
      case ExternalState(_) => 1
      case UnresolvedDependency(_) => 2
      case RecursiveCall(_) => 3
      case DynamicString(_) => 4
      case PhaseUnavailable(_) => 5
      case MissingEvidence(_) => 6
      case ResourceLimit(_) => 7
    }
  }

  /** `AnyList` and `AnyObject` are the source's `List(None)` and `Object(None)`. */
  datatype Value =
    | Bottom
    | Null
    | Boolean(truth: AbstractTruth)
    | Number(minimum: Option<int>, maximum: Option<int>)
    | Text(text: StringValue)
    | AnyList
    | List(items: seq<AbstractValue>)
    | AnyObject
    | Object(fields: map<string, AbstractValue>)
    | Unknown(reasons: seq<Reason>)

  datatype Trust = Trusted | Mixed | Untrusted | UnknownTrust(reasons: seq<Reason>)

  datatype Secrecy = Public | Sensitive | Secret | UnknownSecrecy(reasons: seq<Reason>)

  datatype Position = Position(byte: nat, line: nat, column: nat)

  datatype Span = Span(source: nat, start: Position, stop: Position)

  datatype Provenance = Provenance(origin: string, span: Span, operation: string)

  datatype AbstractValue =
    AbstractValue(valueType: ValueType, value: Value, trust: Trust, secrecy: Secrecy, provenance: seq<Provenance>)

  const Default := AbstractValue(Never, Bottom, Trusted, Public, [])

  const Incompatible := UnsupportedSyntax("incompatible value join")

  const MaxConstants := 8

  // ----- the derived orders -----

  predicate ReasonLess(a: Reason, b: Reason) {
    a.Kind() < b.Kind() || (a.Kind() == b.Kind() && StringLess(a.detail, b.detail))
  }

  predicate PositionLess(a: Position, b: Position) {
    a.byte < b.byte || (a.byte == b.byte && (a.line < b.line || (a.line == b.line && a.column < b.column)))
  }

  predicate SpanLess(a: Span, b: Span) {
    a.source < b.source || (a.source == b.source &&
      (PositionLess(a.start, b.start) || (a.start == b.start && PositionLess(a.stop, b.stop))))
  }

  predicate ProvenanceLess(a: Provenance, b: Provenance) {
    StringLess(a.origin, b.origin) || (a.origin == b.origin &&
      (SpanLess(a.span, b.span) || (a.span == b.span && StringLess(a.operation, b.operation))))
  }

  lemma ReasonTransitive(a: Reason, b: Reason, c: Reason)
    requires ReasonLess(a, b) && ReasonLess(b, c)
    ensures ReasonLess(a, c)
  {
    if a.Kind() == b.Kind() == c.Kind() { StringTransitive(a.detail, b.detail, c.detail); }
  }

  lemma SameReason(a: Reason, b: Reason)
    requires a.Kind() == b.Kind() && a.detail == b.detail
    ensures a == b
  {}

  lemma ReasonConnex(a: Reason, b: Reason)
    ensures a == b || ReasonLess(a, b) || ReasonLess(b, a)
    ensures !ReasonLess(a, a)
  {
    StringIrreflexive(a.detail);
    StringConnex(a.detail, b.detail);
    if a.Kind() == b.Kind() && a.detail == b.detail { SameReason(a, b); }
  }

  lemma ReasonOrder()
    ensures Total(ReasonLess)
  {
    forall a: Reason, b: Reason { ReasonConnex(a, b); }
    forall a: Reason, b: Reason, c: Reason | ReasonLess(a, b) && ReasonLess(b, c) { ReasonTransitive(a, b, c); }
  }

  lemma ProvenanceTransitive(a: Provenance, b: Provenance, c: Provenance)
    requires ProvenanceLess(a, b) && ProvenanceLess(b, c)
    ensures ProvenanceLess(a, c)
  {
    if StringLess(a.origin, b.origin) && StringLess(b.origin, c.origin) {
      StringTransitive(a.origin, b.origin, c.origin);
    }
    if StringLess(a.operation, b.operation) && StringLess(b.operation, c.operation) {
      StringTransitive(a.operation, b.operation, c.operation);
    }
  }

  lemma ProvenanceConnex(a: Provenance, b: Provenance)
    ensures a == b || ProvenanceLess(a, b) || ProvenanceLess(b, a)
    ensures !ProvenanceLess(a, a)
  {
    StringIrreflexive(a.origin);
    StringIrreflexive(a.operation);
    StringConnex(a.origin, b.origin);
    StringConnex(a.operation, b.operation);
  }

  lemma ProvenanceOrder()
    ensures Total(ProvenanceLess)
  {
    forall a: Provenance, b: Provenance { ProvenanceConnex(a, b); }
    forall a: Provenance, b: Provenance, c: Provenance | ProvenanceLess(a, b) && ProvenanceLess(b, c) {
      ProvenanceTransitive(a, b, c);
    }
  }

  // ----- string values -----

  function AffixOrAny(prefix: Option<string>, suffix: Option<string>): StringValue {
    if prefix.None? && suffix.None? then AnyString else Affix(prefix, suffix)
  }

  function JoinPrefixes(left: Option<string>, right: Option<string>): Option<string> {
    if left.Some? && right.Some? then CommonPrefix(left.value, right.value) else None
  }

  function JoinSuffixes(left: Option<string>, right: Option<string>): Option<string> {
    if left.Some? && right.Some? then CommonSuffix(left.value, right.value) else None
  }

  /** One constant against an affix; the constant is the left argument of both text functions. */
  function JoinConstantAffix(value: string, prefix: Option<string>, suffix: Option<string>): StringValue {
    AffixOrAny(JoinPrefixes(Some(value), prefix), JoinSuffixes(Some(value), suffix))
  }

  function JoinConstants(left: seq<string>, right: seq<string>): StringValue {
    var values := Union(StringLess, left, right);
    if |values| <= MaxConstants then Constants(values) else AnyString
  }

  function JoinStrings(left: StringValue, right: StringValue): StringValue {
    if left.NoString? then right
    else if right.NoString? then left
    else if left.Constants? && right.Constants? then JoinConstants(left.values, right.values)
    else if left.Constants? && right.Affix? && |left.values| == 1 then
      JoinConstantAffix(left.values[0], right.prefix, right.suffix)
    else if left.Affix? && right.Constants? && |right.values| == 1 then
      JoinConstantAffix(right.values[0], left.prefix, left.suffix)
    else if left.Affix? && right.Affix? then
      AffixOrAny(JoinPrefixes(left.prefix, right.prefix), JoinSuffixes(left.suffix, right.suffix))
    else if left.Pattern? && right.Pattern? && left.pattern == right.pattern then left
    else AnyString
  }

  // ----- values -----

  function Least(a: Option<int>, b: Option<int>): Option<int> {
    if a.Some? && b.Some? then Some(if b.value < a.value then b.value else a.value) else None
  }

  function Greatest(a: Option<int>, b: Option<int>): Option<int> {
    if a.Some? && b.Some? then Some(if a.value < b.value then b.value else a.value) else None
  }

  function ReasonUnion(a: seq<Reason>, b: seq<Reason>): seq<Reason> { Union(ReasonLess, a, b) }

  predicate IsList(v: Value) { v.List? || v.AnyList? }

  predicate IsObject(v: Value) { v.Object? || v.AnyObject? }

  /** The arms of `join_value` that look at no element: everything but two known lists of equal
      length and two known objects. */
  function JoinFlat(left: Value, right: Value): Value {
    if IsList(left) && IsList(right) then AnyList
    else if IsObject(left) && IsObject(right) then AnyObject
    else match (left, right)
    case (Null, Null) => Null
    case (Boolean(a), Boolean(b)) => Boolean(if a == b then a else Maybe)
    case (Number(a, b), Number(c, d)) => Number(Least(a, c), Greatest(b, d))
    case (Text(a), Text(b)) => Text(JoinStrings(a, b))
    case (Unknown(a), Unknown(b)) => Unknown(ReasonUnion(a, b))
    case (Unknown(a), _) => Unknown(ReasonUnion(a, [Incompatible]))
    case (_, Unknown(b)) => Unknown(ReasonUnion(b, [Incompatible]))
    case _ => Unknown([Incompatible])
  }

  function JoinTypes(left: ValueType, right: ValueType): ValueType {
    if left == Never then right
    else if right == Never || left == right then left
    else Dynamic
  }

  function JoinTrust(left: Trust, right: Trust): Trust {
    match (left, right)
    case (Untrusted, _) => Untrusted
    case (Trusted, Trusted) => Trusted
    case (_, Untrusted) => Untrusted
    case (UnknownTrust(a), UnknownTrust(b)) => UnknownTrust(ReasonUnion(a, b))
    case (UnknownTrust(_), _) => left
    case (_, UnknownTrust(_)) => right
    case (Mixed, _) => Mixed
    case (_, Mixed) => Mixed
  }

  function JoinSecrecy(left: Secrecy, right: Secrecy): Secrecy {
    match (left, right)
    case (Secret, _) => Secret
    case (Public, Public) => Public
    case (_, Secret) => Secret
    case (UnknownSecrecy(a), UnknownSecrecy(b)) => UnknownSecrecy(ReasonUnion(a, b))
    case (UnknownSecrecy(_), _) => left
    case (_, UnknownSecrecy(_)) => right
    case (Sensitive, _) => Sensitive
    case (_, Sensitive) => Sensitive
  }

  /** The value that `join_assign` leaves behind, and therefore the value of `join`. */
  function Join(left: AbstractValue, right: AbstractValue): AbstractValue
    decreases right
  {
    if left.value == Bottom then right
    else if right.value == Bottom then left
    else AbstractValue(
      JoinTypes(left.valueType, right.valueType),
      AssignedValue(left.value, right.value),
      JoinTrust(left.trust, right.trust),
      JoinSecrecy(left.secrecy, right.secrecy),
      Union(ProvenanceLess, left.provenance, right.provenance))
  }

  /** The value that `join_value_assign` leaves behind. */
  function AssignedValue(left: Value, right: Value): Value
    decreases right
  {
    if SameLength(left, right) then
      List(seq(|left.items|, i requires 0 <= i < |left.items| => Join(left.items[i], right.items[i])))
    else if left.Object? && right.Object? then
      Object(map k | k in left.fields.Keys + right.fields.Keys ::
        if k !in right.fields then left.fields[k]
        else if k !in left.fields then right.fields[k]
        else Join(left.fields[k], right.fields[k]))
    else JoinFlat(left, right)
  }

  predicate SameLength(left: Value, right: Value) {
    left.List? && right.List? && |left.items| == |right.items|
  }

  function FieldOrDefault(fields: map<string, AbstractValue>, key: string): AbstractValue {
    if key in fields then fields[key] else Default
  }

  /** The pure form: a key that one object lacks is joined with the default value. */
  function JoinValue(left: Value, right: Value): Value {
    if SameLength(left, right) then
      List(seq(|left.items|, i requires 0 <= i < |left.items| => Join(left.items[i], right.items[i])))
    else if left.Object? && right.Object? then
      Object(map k | k in left.fields.Keys + right.fields.Keys ::
        Join(FieldOrDefault(left.fields, k), FieldOrDefault(right.fields, k)))
    else JoinFlat(left, right)
  }
}
