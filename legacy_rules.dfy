/**
 * The older copy of the condition model in `src/utils/rules.ts`. Its
 * condition type is structurally the same as the one of conditions.ts, so
 * the datatype is shared; its schema and evaluator are modelled on their
 * own, as the `z.union` of object schemas and as the `every`/`some`
 * scans, and proved to agree with the conditions.ts versions.
 */
module LegacyRules {
  import opened Conditions
  import opened Wrappers

  // ---------------------------------------------------------------------
  // The object schemas of the union, one per variant

  predicate WeekdaySchema(c: Condition)
  {
    c.Simple? && c.kind == Weekday && (c.comparison == Eq || c.comparison == Neq)
    && c.value.Num? && 0 <= c.value.n <= 6
  }

  /** The operator union `eq | neq | gt | lt` and a `min`/`max` range. */
  predicate OrderedSchema(c: Condition, k: Kind, min: int, max: Option<int>)
  {
    c.Simple? && c.kind == k && c.value.Num? && min <= c.value.n
    && (max.Some? ==> c.value.n <= max.value)
  }

  /** `conditionSchema` as the union of its eight variants, in source order. */
  predicate ValidCondition(c: Condition)
  {
    || WeekdaySchema(c)
    || (c.Boolean? && ValidChildren(c, 0))
    || OrderedSchema(c, Day, 1, Some(31))
    || OrderedSchema(c, Month, 1, Some(12))
    || OrderedSchema(c, Year, 0, None)
    || OrderedSchema(c, Hour, 0, Some(23))
    || OrderedSchema(c, Minute, 0, Some(59))
    || OrderedSchema(c, Second, 0, Some(59))
  }

  /** `z.array(conditionSchema)` on the children from position `i` on. */
  predicate ValidChildren(c: Condition, i: nat)
    requires c.Boolean? && i <= |c.conditions|
    decreases c, |c.conditions| - i
  {
    i == |c.conditions| || (ValidCondition(c.conditions[i]) && ValidChildren(c, i + 1))
  }

  // ---------------------------------------------------------------------
  // Evaluation

  /** rules.ts's `isBooleanCondition` is the same test as the one of
      conditions.ts, so `Conditions.IsBooleanCondition` serves both. */
  function IsConditionTrue(c: Condition, circ: Circumstances): bool
    decreases c, 2
  {
    if IsBooleanCondition(c) then IsBooleanConditionTrue(c, circ)
    else IsSimpleConditionTrue(c, circ)
  }

  function IsBooleanConditionTrue(c: Condition, circ: Circumstances): bool
    requires c.Boolean?
    decreases c, 1
  {
    if c.connective == And then AllChildrenTrue(c, 0, circ) else SomeChildTrue(c, 0, circ)
  }

  /** `conditions.every(...)` from position `i`: stops at the first false child. */
  function AllChildrenTrue(c: Condition, i: nat, circ: Circumstances): bool
    requires c.Boolean? && i <= |c.conditions|
    decreases c, 0, |c.conditions| - i
  {
    if i == |c.conditions| then true
    else if !IsConditionTrue(c.conditions[i], circ) then false
    else AllChildrenTrue(c, i + 1, circ)
  }

  /** `conditions.some(...)` from position `i`: stops at the first true child. */
  function SomeChildTrue(c: Condition, i: nat, circ: Circumstances): bool
    requires c.Boolean? && i <= |c.conditions|
    decreases c, 0, |c.conditions| - i
  {
    if i == |c.conditions| then false
    else if IsConditionTrue(c.conditions[i], circ) then true
    else SomeChildTrue(c, i + 1, circ)
  }

  /** The `switch` on the operator of a leaf; `circumstances[type]`. */
  function IsSimpleConditionTrue(c: Condition, circ: Circumstances): bool
    requires c.Simple?
  {
    var circumstance := Circumstance(circ, c.kind);
    var value := Magnitude(c.value);
    match c.comparison
    case Eq => StrictlyEqual(circumstance, c.kind, c.value)
    case Neq => !StrictlyEqual(circumstance, c.kind, c.value)
    case Gt => circumstance > value
    case Lt => circumstance < value
  }

  // ---------------------------------------------------------------------
  // Agreement with conditions.ts

  /** The two evaluators return the same result on every tree. */
  lemma {:induction false} AgreesWithConditions(c: Condition, circ: Circumstances)
    ensures IsConditionTrue(c, circ) == Conditions.IsConditionTrue(c, circ)
    decreases c, 1
  {
    if c.Boolean? {
      if c.connective == And {
        AllChildrenAgree(c, 0, circ);
      } else {
        SomeChildAgrees(c, 0, circ);
      }
    }
  }

  lemma {:induction false} AllChildrenAgree(c: Condition, i: nat, circ: Circumstances)
    requires c.Boolean? && i <= |c.conditions|
    ensures AllChildrenTrue(c, i, circ)
        <==> forall j | i <= j < |c.conditions| :: Conditions.IsConditionTrue(c.conditions[j], circ)
    decreases c, 0, |c.conditions| - i
  {
    if i < |c.conditions| {
      AgreesWithConditions(c.conditions[i], circ);
      AllChildrenAgree(c, i + 1, circ);
    }
  }

  lemma {:induction false} SomeChildAgrees(c: Condition, i: nat, circ: Circumstances)
    requires c.Boolean? && i <= |c.conditions|
    ensures SomeChildTrue(c, i, circ)
        <==> exists j | i <= j < |c.conditions| :: Conditions.IsConditionTrue(c.conditions[j], circ)
    decreases c, 0, |c.conditions| - i
  {
    if i < |c.conditions| {
      AgreesWithConditions(c.conditions[i], circ);
      SomeChildAgrees(c, i + 1, circ);
    }
  }

  /** The two schemas accept the same trees. */
  lemma {:induction false} SchemaAgreesWithConditions(c: Condition)
    ensures ValidCondition(c) == Conditions.ValidCondition(c)
    decreases c, 1
  {
    if c.Boolean? {
      ChildrenSchemaAgree(c, 0);
    }
  }

  lemma {:induction false} ChildrenSchemaAgree(c: Condition, i: nat)
    requires c.Boolean? && i <= |c.conditions|
    ensures ValidChildren(c, i)
        <==> forall j | i <= j < |c.conditions| :: Conditions.ValidCondition(c.conditions[j])
    decreases c, 0, |c.conditions| - i
  {
    if i < |c.conditions| {
      SchemaAgreesWithConditions(c.conditions[i]);
      ChildrenSchemaAgree(c, i + 1);
    }
  }

  /** Empty `and` is true, empty `or` false. */
  lemma EmptyBooleans(circ: Circumstances)
    ensures IsConditionTrue(Boolean(And, []), circ)
    ensures !IsConditionTrue(Boolean(Or, []), circ)
  {
  }

  /** `eq`/`neq` are complementary and `gt`/`lt` strict. */
  lemma LeafOperators(k: Kind, v: Value, circ: Circumstances)
    ensures IsConditionTrue(Simple(k, Eq, v), circ) == !IsConditionTrue(Simple(k, Neq, v), circ)
    ensures !(IsConditionTrue(Simple(k, Gt, v), circ) && IsConditionTrue(Simple(k, Lt, v), circ))
    ensures Circumstance(circ, k) == Magnitude(v) ==>
      !IsConditionTrue(Simple(k, Gt, v), circ) && !IsConditionTrue(Simple(k, Lt, v), circ)
  {
  }

  /** Weekday leaves admit only `eq`/`neq` with a value in 0..6. */
  lemma WeekdayOnlyEqNeq(op: Comparison, v: Value)
    ensures ValidCondition(Simple(Weekday, op, v))
        <==> (op == Eq || op == Neq) && v.Num? && 0 <= v.n <= 6
  {
  }
}
