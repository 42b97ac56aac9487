/**
 * The condition model of `src/utils/conditions.ts`: a recursive tree of
 * boolean `and`/`or` nodes over leaf comparisons on one circumstance field,
 * the schema that restricts operators and value ranges, the evaluator and
 * the leaf counter.
 */
module Conditions {

  /** Operator of a boolean node. */
  datatype Connective = And | Or

  /** Operator of a simple (leaf) condition. */
  datatype Comparison = Eq | Neq | Gt | Lt

  /** The circumstance field a simple condition compares. `Datetime` is
      used by the editor and the news-ticker rules; the schema of
      conditions.ts does not admit it. */
  datatype Kind = Weekday | Day | Month | Year | Hour | Minute | Second | Datetime

  /** A leaf value: a JavaScript number, or a `Date` held as its
      millisecond time value. */
  datatype Value = Num(n: int) | Instant(ms: int)

  datatype Condition =
    | Boolean(connective: Connective, conditions: seq<Condition>)
    | Simple(kind: Kind, comparison: Comparison, value: Value)

  /** One point in time decomposed into fields; `datetime` is the instant
      in milliseconds. */
  datatype Circumstances = Circumstances(
    weekday: int, day: int, month: int, year: int,
    hour: int, minute: int, second: int, datetime: int)

  /** The `type` tag of a condition as the source spells it. */
  function TypeName(c: Condition): string
  {
    match c
    case Boolean(_, _) => "boolean"
    case Simple(k, _, _) => KindName(k)
  }

  function KindName(k: Kind): string
  {
    match k
    case Weekday => "weekday"
    case Day => "day"
    case Month => "month"
    case Year => "year"
    case Hour => "hour"
    case Minute => "minute"
    case Second => "second"
    case Datetime => "datetime"
  }

  /** `isBooleanCondition`: the type guard on the `type` tag. */
  predicate IsBooleanCondition(c: Condition)
    ensures IsBooleanCondition(c) <==> TypeName(c) == "boolean"
  {
    c.Boolean?
  }

  // ---------------------------------------------------------------------
  // Schemas

  /** Which operators the schema of a leaf type admits. */
  predicate AdmitsComparison(k: Kind, op: Comparison)
  {
    k == Weekday ==> op == Eq || op == Neq
  }

  /** The `min`/`max` range of a leaf type's schema (year has no maximum). */
  predicate InRange(k: Kind, v: int)
  {
    match k
    case Weekday => 0 <= v <= 6
    case Day => 1 <= v <= 31
    case Month => 1 <= v <= 12
    case Year => 0 <= v
    case Hour => 0 <= v <= 23
    case Minute => 0 <= v <= 59
    case Second => 0 <= v <= 59
    case Datetime => false
  }

  /** The schema of one leaf: a known type, an admitted operator and a
      number within the type's range. */
  predicate ValidSimple(k: Kind, op: Comparison, v: Value)
  {
    k != Datetime && AdmitsComparison(k, op) && v.Num? && InRange(k, v.n)
  }

  /** `conditionSchema`: every node of the tree matches one of the
      variants of the union. */
  predicate ValidCondition(c: Condition)
  {
    match c
    case Boolean(_, cs) => forall i | 0 <= i < |cs| :: ValidCondition(cs[i])
    case Simple(k, op, v) => ValidSimple(k, op, v)
  }

  /** Weekday leaves admit only `eq`/`neq` with a value in 0..6. */
  lemma WeekdaySchema(op: Comparison, v: Value)
    ensures ValidCondition(Simple(Weekday, op, v))
        <==> (op == Eq || op == Neq) && v.Num? && 0 <= v.n <= 6
  {
  }

  /** Every other circumstance type admits all four operators, within its
      own range; month, for one, is 1..12. */
  lemma OrderedKindsSchema(k: Kind, op: Comparison, n: int)
    requires k != Weekday && k != Datetime
    ensures ValidCondition(Simple(k, op, Num(n))) <==> InRange(k, n)
    ensures k == Month ==> (ValidCondition(Simple(k, op, Num(n))) <==> 1 <= n <= 12)
  {
  }

  // ---------------------------------------------------------------------
  // Evaluation

  /** The circumstance a leaf of kind `k` is compared with. */
  function Circumstance(circ: Circumstances, k: Kind): int
  {
    match k
    case Weekday => circ.weekday
    case Day => circ.day
    case Month => circ.month
    case Year => circ.year
    case Hour => circ.hour
    case Minute => circ.minute
    case Second => circ.second
    case Datetime => circ.datetime
  }

  /** The number a leaf value stands for (`getTime()` of a date). */
  function Magnitude(v: Value): int
  {
    match v
    case Num(n) => n
    case Instant(ms) => ms
  }

  /** `isConditionTrue`: dispatch on the type tag. */
  function IsConditionTrue(c: Condition, circ: Circumstances): bool
    decreases c, 1
  {
    if IsBooleanCondition(c) then IsBooleanConditionTrue(c, circ)
    else IsSimpleConditionTrue(c.kind, c.comparison, c.value, circ)
  }

  /** `and` is `every` over the children and `or` is `some`. */
  function IsBooleanConditionTrue(c: Condition, circ: Circumstances): bool
    requires c.Boolean?
    decreases c, 0
  {
    if c.connective == And then
      forall i | 0 <= i < |c.conditions| :: IsConditionTrue(c.conditions[i], circ)
    else
      exists i | 0 <= i < |c.conditions| :: IsConditionTrue(c.conditions[i], circ)
  }

  /** `circumstance === value`. The `datetime` circumstance is a `Date`
      object and a date value is another one, so strict equality holds
      only between two numbers; `>` and `<` compare time values. */
  predicate StrictlyEqual(circumstance: int, k: Kind, v: Value)
  {
    k != Datetime && v.Num? && circumstance == v.n
  }

  /** The `switch` on the operator of a leaf. */
  function IsSimpleConditionTrue(k: Kind, op: Comparison, v: Value, circ: Circumstances): bool
  {
    var circumstance := Circumstance(circ, k);
    match op
    case Eq => StrictlyEqual(circumstance, k, v)
    case Neq => !StrictlyEqual(circumstance, k, v)
    case Gt => circumstance > Magnitude(v)
    case Lt => circumstance < Magnitude(v)
  }

  /** `defaultCondition`, given to every new rule. */
  const DefaultCondition: Condition := Boolean(And, [])

  lemma DefaultConditionAlwaysTrue(circ: Circumstances)
    ensures IsConditionTrue(DefaultCondition, circ)
    ensures ValidCondition(DefaultCondition)
  {
  }

  lemma EmptyOrIsFalse(circ: Circumstances)
    ensures !IsConditionTrue(Boolean(Or, []), circ)
  {
  }

  /** `and` holds iff every child holds; `or` iff some child holds. */
  lemma BooleanSemantics(cs: seq<Condition>, circ: Circumstances)
    ensures IsConditionTrue(Boolean(And, cs), circ)
        <==> forall i | 0 <= i < |cs| :: IsConditionTrue(cs[i], circ)
    ensures IsConditionTrue(Boolean(Or, cs), circ)
        <==> exists i | 0 <= i < |cs| :: IsConditionTrue(cs[i], circ)
  {
  }

  /** A `datetime` leaf or a date value is never `===` to its circumstance:
      `eq` is false and `neq` is true whatever the instant. Between numbers
      `eq` is equality of the circumstance and the value. */
  lemma StrictEqualityOnDates(k: Kind, v: Value, circ: Circumstances)
    ensures (k == Datetime || v.Instant?) ==>
      !IsConditionTrue(Simple(k, Eq, v), circ) && IsConditionTrue(Simple(k, Neq, v), circ)
    ensures (k != Datetime && v.Num?) ==>
      (IsConditionTrue(Simple(k, Eq, v), circ) <==> Circumstance(circ, k) == v.n)
  {
  }

  /** For the same type and value, `eq` and `neq` disagree everywhere. */
  lemma EqNeqComplementary(k: Kind, v: Value, circ: Circumstances)
    ensures IsConditionTrue(Simple(k, Eq, v), circ) == !IsConditionTrue(Simple(k, Neq, v), circ)
  {
  }

  /** `gt` and `lt` are strict: never both, and neither at equality. */
  lemma GtLtStrict(k: Kind, v: Value, circ: Circumstances)
    ensures !(IsConditionTrue(Simple(k, Gt, v), circ) && IsConditionTrue(Simple(k, Lt, v), circ))
    ensures Circumstance(circ, k) == Magnitude(v) ==>
      !IsConditionTrue(Simple(k, Gt, v), circ) && !IsConditionTrue(Simple(k, Lt, v), circ)
  {
  }

  // ---------------------------------------------------------------------
  // Counting leaves

  /** `countNestedSimpleConditions`: 1 for a leaf, the `reduce` over the
      children for a boolean node. */
  function CountNestedSimpleConditions(c: Condition): nat
    decreases c, 1
  {
    if IsBooleanCondition(c) then SumCounts(c, |c.conditions|) else 1
  }

  /** The accumulator of the `reduce` after the first `n` children. */
  function SumCounts(c: Condition, n: nat): nat
    requires c.Boolean? && n <= |c.conditions|
    decreases c, 0, n
  {
    if n == 0 then 0
    else SumCounts(c, n - 1) + CountNestedSimpleConditions(c.conditions[n - 1])
  }

  /** The leaves of a tree, left to right: an independent description of
      what is counted. */
  function Leaves(c: Condition): seq<Condition>
    decreases c, 1
  {
    match c
    case Simple(_, _, _) => [c]
    case Boolean(_, cs) => LeavesOf(c, |cs|)
  }

  function LeavesOf(c: Condition, n: nat): seq<Condition>
    requires c.Boolean? && n <= |c.conditions|
    decreases c, 0, n
  {
    if n == 0 then [] else LeavesOf(c, n - 1) + Leaves(c.conditions[n - 1])
  }

  /** The count is exactly the number of leaves, and every leaf is simple. */
  lemma {:induction false} CountIsNumberOfLeaves(c: Condition)
    ensures CountNestedSimpleConditions(c) == |Leaves(c)|
    ensures forall i | 0 <= i < |Leaves(c)| :: Leaves(c)[i].Simple?
    decreases c, 1
  {
    if c.Boolean? {
      CountIsNumberOfLeavesPrefix(c, |c.conditions|);
    }
  }

  lemma {:induction false} CountIsNumberOfLeavesPrefix(c: Condition, n: nat)
    requires c.Boolean? && n <= |c.conditions|
    ensures SumCounts(c, n) == |LeavesOf(c, n)|
    ensures forall i | 0 <= i < |LeavesOf(c, n)| :: LeavesOf(c, n)[i].Simple?
    decreases c, 0, n
  {
    if n > 0 {
      CountIsNumberOfLeavesPrefix(c, n - 1);
      CountIsNumberOfLeaves(c.conditions[n - 1]);
    }
  }

  /** Counting is additive over the children; an empty boolean node counts 0. */
  lemma {:induction false} CountOfBoolean(conn: Connective, cs: seq<Condition>, child: Condition)
    ensures CountNestedSimpleConditions(Boolean(conn, [])) == 0
    ensures CountNestedSimpleConditions(Boolean(conn, cs + [child]))
         == CountNestedSimpleConditions(Boolean(conn, cs)) + CountNestedSimpleConditions(child)
  {
    var c, d := Boolean(conn, cs), Boolean(conn, cs + [child]);
    SumCountsPrefix(c, d, |cs|);
  }

  /** Two boolean nodes whose first `n` children agree have the same
      partial sums up to `n`. */
  lemma {:induction false} SumCountsPrefix(c: Condition, d: Condition, n: nat)
    requires c.Boolean? && d.Boolean?
    requires n <= |c.conditions| && n <= |d.conditions|
    requires c.conditions[..n] == d.conditions[..n]
    ensures SumCounts(c, n) == SumCounts(d, n)
    decreases n
  {
    if n > 0 {
      assert c.conditions[n - 1] == c.conditions[..n][n - 1] == d.conditions[n - 1];
      assert c.conditions[..n - 1] == c.conditions[..n][..n - 1];
      assert d.conditions[..n - 1] == d.conditions[..n][..n - 1];
      SumCountsPrefix(c, d, n - 1);
    }
  }
}
