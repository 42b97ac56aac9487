/**
 * The editing operations of `src/components/dashboard/RuleConditionEditor.tsx`
 * without the rendering: the root check, the type and operator selects of a
 * leaf, the connective select of a boolean node, and the replace, remove and
 * append of a node's children. Each handler either emits a new condition
 * (`onChange`) or emits nothing.
 */
module ConditionEditor {
  import opened Wrappers
  import opened Conditions

  const CorruptedMessage: string := "Corrupted condition data. Please contact the developer."

  /** `RuleConditionEditor`: a root that is not a boolean node is shown as
      an error message instead of an editor. */
  function EditorRoot(c: Condition): (r: Result<Condition, string>)
    ensures r.Ok? <==> IsBooleanCondition(c)
    ensures r.Ok? ==> r.value == c
    ensures r.Err? ==> r.error == CorruptedMessage
  {
    if !IsBooleanCondition(c) then Err(CorruptedMessage) else Ok(c)
  }

  /** `new Date(value)`: a number becomes the instant with that time value;
      a date is copied. */
  function ToInstant(v: Value): Value
  {
    match v
    case Num(n) => Instant(n)
    case Instant(ms) => Instant(ms)
  }

  /** `handleTypeChange`: nothing for a boolean node. A change to weekday
      keeps `eq`/`neq` and otherwise sets `eq`, and a date value becomes 0;
      a change to datetime turns the value into a date; a change away from
      datetime takes the date's `getTime()`. */
  function TypeChange(c: Condition, newKind: Kind): Option<Condition>
  {
    match c
    case Boolean(_, _) => None
    case Simple(kind, op, v) =>
      if newKind == Weekday then
        Some(Simple(Weekday, if op == Eq || op == Neq then op else Eq, if kind == Datetime then Num(0) else v))
      else if newKind == Datetime then Some(Simple(Datetime, op, ToInstant(v)))
      else if kind == Datetime then Some(Simple(newKind, op, Num(Magnitude(v))))
      else Some(Simple(newKind, op, v))
  }

  /** A leaf holds a date exactly when its type is datetime, as the union
      type of conditions requires. */
  predicate WellTagged(c: Condition)
  {
    c.Simple? ==> (c.kind == Datetime <==> c.value.Instant?)
  }

  /** The type select changes only a leaf, to the chosen type; the result
      is well tagged and admits its operator; the operator is kept unless
      the new type is weekday and the old operator an ordering. */
  lemma TypeChangeSpec(c: Condition, newKind: Kind)
    requires WellTagged(c)
    ensures TypeChange(c, newKind).None? <==> c.Boolean?
    ensures TypeChange(c, newKind).Some? ==>
      var r := TypeChange(c, newKind).value;
      && r.Simple? && r.kind == newKind && WellTagged(r)
      && AdmitsComparison(r.kind, r.comparison)
      && (newKind == Weekday ==> r.comparison == Eq || r.comparison == Neq)
      && (newKind != Weekday || c.comparison == Eq || c.comparison == Neq ==> r.comparison == c.comparison)
      && (c.kind != Datetime && newKind != Datetime ==> r.value == c.value)
  {
  }

  /** Number to datetime and back is lossless, and so is datetime to
      number and back. */
  lemma TypeChangeRoundTrip(kind: Kind, op: Comparison, n: int)
    requires kind != Weekday && kind != Datetime
    ensures TypeChange(Simple(kind, op, Num(n)), Datetime) == Some(Simple(Datetime, op, Instant(n)))
    ensures TypeChange(Simple(Datetime, op, Instant(n)), kind) == Some(Simple(kind, op, Num(n)))
    ensures TypeChange(TypeChange(Simple(kind, op, Num(n)), Datetime).value, kind) == Some(Simple(kind, op, Num(n)))
    ensures TypeChange(TypeChange(Simple(Datetime, op, Instant(n)), kind).value, Datetime) == Some(Simple(Datetime, op, Instant(n)))
  {
  }

  /** `handleOperatorChange`: nothing for a boolean node, nothing for an
      ordering on a weekday leaf, otherwise only the operator changes. */
  function OperatorChange(c: Condition, newOp: Comparison): Option<Condition>
  {
    match c
    case Boolean(_, _) => None
    case Simple(kind, _, v) =>
      if kind == Weekday && (newOp == Eq || newOp == Neq) then Some(Simple(kind, newOp, v))
      else if kind != Weekday then Some(Simple(kind, newOp, v))
      else None
  }

  lemma OperatorChangeSpec(c: Condition, newOp: Comparison)
    ensures OperatorChange(c, newOp).None? <==> c.Boolean? || !AdmitsComparison(c.kind, newOp)
    ensures OperatorChange(c, newOp).Some? ==> OperatorChange(c, newOp).value == c.(comparison := newOp)
    ensures OperatorChange(c, newOp).Some? && AdmitsComparison(c.kind, c.comparison) ==>
      ValidCondition(OperatorChange(c, newOp).value) == ValidCondition(c)
  {
  }

  /** The connective select of a boolean node. */
  function ConnectiveChange(c: Condition, op: Connective): Option<Condition>
  {
    if c.Boolean? then Some(c.(connective := op)) else None
  }

  lemma ConnectiveChangeKeepsLeaves(c: Condition, op: Connective)
    requires c.Boolean?
    ensures CountNestedSimpleConditions(ConnectiveChange(c, op).value) == CountNestedSimpleConditions(c)
    ensures ValidCondition(ConnectiveChange(c, op).value) == ValidCondition(c)
  {
    SumCountsPrefix(c, ConnectiveChange(c, op).value, |c.conditions|);
  }

  // ---------------------------------------------------------------------
  // Children

  /** A child editor's `onChange`: the copy of the children with slot `i`
      replaced. */
  function ReplaceChild(c: Condition, i: nat, child: Condition): Condition
    requires c.Boolean? && i < |c.conditions|
  {
    c.(conditions := c.conditions[i := child])
  }

  /** A child editor's `onRemove`: the copy with `splice(i, 1)` applied. */
  function RemoveChild(c: Condition, i: nat): Condition
    requires c.Boolean? && i < |c.conditions|
  {
    c.(conditions := c.conditions[..i] + c.conditions[i + 1..])
  }

  /** The two "add" buttons. */
  const NewBooleanChild: Condition := Boolean(And, [])
  const NewSimpleChild: Condition := Simple(Day, Eq, Num(1))

  function AppendChild(c: Condition, child: Condition): Condition
    requires c.Boolean?
  {
    c.(conditions := c.conditions + [child])
  }

  /** Replacing child `i` changes slot `i` only. */
  lemma ReplaceChildSpec(c: Condition, i: nat, child: Condition)
    requires c.Boolean? && i < |c.conditions|
    ensures var r := ReplaceChild(c, i, child);
      && r.Boolean? && r.connective == c.connective && |r.conditions| == |c.conditions|
      && r.conditions[i] == child
      && forall j | 0 <= j < |c.conditions| && j != i :: r.conditions[j] == c.conditions[j]
  {
  }

  /** Removing child `i` deletes exactly that child and keeps the others in
      order. */
  lemma RemoveChildSpec(c: Condition, i: nat)
    requires c.Boolean? && i < |c.conditions|
    ensures var r := RemoveChild(c, i);
      && r.Boolean? && r.connective == c.connective && |r.conditions| == |c.conditions| - 1
      && (forall j | 0 <= j < i :: r.conditions[j] == c.conditions[j])
      && (forall j | i <= j < |r.conditions| :: r.conditions[j] == c.conditions[j + 1])
      && r.conditions[..i] + [c.conditions[i]] + r.conditions[i..] == c.conditions
  {
    var r := RemoveChild(c, i);
    assert r.conditions[..i] == c.conditions[..i];
    assert r.conditions[i..] == c.conditions[i + 1..];
    assert c.conditions[..i] + [c.conditions[i]] + c.conditions[i + 1..] == c.conditions;
  }

  /** Appending keeps the existing children and adds one at the end. */
  lemma AppendChildSpec(c: Condition, child: Condition)
    requires c.Boolean?
    ensures var r := AppendChild(c, child);
      && r.Boolean? && r.connective == c.connective && |r.conditions| == |c.conditions| + 1
      && r.conditions[..|c.conditions|] == c.conditions && r.conditions[|c.conditions|] == child
  {
    assert AppendChild(c, child).conditions[..|c.conditions|] == c.conditions;
  }

  // ---------------------------------------------------------------------
  // Leaf counts and validity under edits

  /** The partial count over `a + b` after `|a| + k` children is the count
      of `a` plus the partial count of `b` after `k`. */
  lemma {:induction false} SumCountsConcat(op: Connective, a: seq<Condition>, b: seq<Condition>, k: nat)
    requires k <= |b|
    ensures SumCounts(Boolean(op, a + b), |a| + k)
      == SumCounts(Boolean(op, a), |a|) + SumCounts(Boolean(op, b), k)
  {
    if k == 0 {
      assert (a + b)[..|a|] == a[..|a|];
      SumCountsPrefix(Boolean(op, a + b), Boolean(op, a), |a|);
    } else {
      SumCountsConcat(op, a, b, k - 1);
      assert (a + b)[|a| + k - 1] == b[k - 1];
    }
  }

  /** The count of a boolean node is additive over its children. */
  lemma CountConcat(op: Connective, a: seq<Condition>, b: seq<Condition>)
    ensures CountNestedSimpleConditions(Boolean(op, a + b))
      == CountNestedSimpleConditions(Boolean(op, a)) + CountNestedSimpleConditions(Boolean(op, b))
  {
    SumCountsConcat(op, a, b, |b|);
  }

  lemma CountSingle(op: Connective, x: Condition)
    ensures CountNestedSimpleConditions(Boolean(op, [x])) == CountNestedSimpleConditions(x)
  {
    assert SumCounts(Boolean(op, [x]), 1) == SumCounts(Boolean(op, [x]), 0) + CountNestedSimpleConditions(x);
  }

  /** Replacing a child changes the count by the difference of the two
      children's counts. */
  lemma ReplaceChildCount(c: Condition, i: nat, child: Condition)
    requires c.Boolean? && i < |c.conditions|
    ensures CountNestedSimpleConditions(ReplaceChild(c, i, child)) + CountNestedSimpleConditions(c.conditions[i])
      == CountNestedSimpleConditions(c) + CountNestedSimpleConditions(child)
  {
    var op, cs := c.connective, c.conditions;
    var pre, post := cs[..i], cs[i + 1..];
    assert cs == (pre + [cs[i]]) + post;
    assert cs[i := child] == (pre + [child]) + post;
    CountConcat(op, pre + [cs[i]], post);
    CountConcat(op, pre, [cs[i]]);
    CountConcat(op, pre + [child], post);
    CountConcat(op, pre, [child]);
    CountSingle(op, cs[i]);
    CountSingle(op, child);
  }

  /** Removing a child takes away exactly that child's leaves. */
  lemma RemoveChildCount(c: Condition, i: nat)
    requires c.Boolean? && i < |c.conditions|
    ensures CountNestedSimpleConditions(RemoveChild(c, i)) + CountNestedSimpleConditions(c.conditions[i])
      == CountNestedSimpleConditions(c)
  {
    var op, cs := c.connective, c.conditions;
    var pre, post := cs[..i], cs[i + 1..];
    assert cs == (pre + [cs[i]]) + post;
    CountConcat(op, pre + [cs[i]], post);
    CountConcat(op, pre, [cs[i]]);
    CountConcat(op, pre, post);
    CountSingle(op, cs[i]);
  }

  /** "Add new boolean condition" adds no leaf; "Add new simple condition"
      adds one. */
  lemma AppendChildCount(c: Condition)
    requires c.Boolean?
    ensures CountNestedSimpleConditions(AppendChild(c, NewBooleanChild)) == CountNestedSimpleConditions(c)
    ensures CountNestedSimpleConditions(AppendChild(c, NewSimpleChild)) == CountNestedSimpleConditions(c) + 1
  {
    var op, cs := c.connective, c.conditions;
    CountConcat(op, cs, [NewBooleanChild]);
    CountSingle(op, NewBooleanChild);
    CountConcat(op, cs, [NewSimpleChild]);
    CountSingle(op, NewSimpleChild);
  }

  /** Edits of a valid tree with valid parts give a valid tree: the new
      children of both "add" buttons pass the schema. */
  lemma EditsKeepValidity(c: Condition, i: nat, child: Condition)
    requires c.Boolean? && ValidCondition(c) && ValidCondition(child)
    ensures i < |c.conditions| ==> ValidCondition(ReplaceChild(c, i, child))
    ensures i < |c.conditions| ==> ValidCondition(RemoveChild(c, i))
    ensures ValidCondition(AppendChild(c, child))
    ensures ValidCondition(AppendChild(c, NewBooleanChild)) && ValidCondition(AppendChild(c, NewSimpleChild))
  {
    if i < |c.conditions| {
      var r := RemoveChild(c, i);
      assert forall j | 0 <= j < |r.conditions| :: r.conditions[j] == c.conditions[if j < i then j else j + 1];
    }
    var ab := AppendChild(c, NewBooleanChild);
    assert forall j | 0 <= j < |ab.conditions| :: ab.conditions[j] == if j < |c.conditions| then c.conditions[j] else NewBooleanChild;
    var asc := AppendChild(c, NewSimpleChild);
    assert forall j | 0 <= j < |asc.conditions| :: asc.conditions[j] == if j < |c.conditions| then c.conditions[j] else NewSimpleChild;
    var ac := AppendChild(c, child);
    assert forall j | 0 <= j < |ac.conditions| :: ac.conditions[j] == if j < |c.conditions| then c.conditions[j] else child;
  }

  /** Appending the empty `and` node does not change the truth of an `and`
      node, and makes an `or` node true. */
  lemma AppendBooleanChildTruth(c: Condition, circ: Circumstances)
    requires c.Boolean?
    ensures c.connective == And ==> IsConditionTrue(AppendChild(c, NewBooleanChild), circ) == IsConditionTrue(c, circ)
    ensures c.connective == Or ==> IsConditionTrue(AppendChild(c, NewBooleanChild), circ)
  {
    var r := AppendChild(c, NewBooleanChild);
    assert IsConditionTrue(r.conditions[|c.conditions|], circ);
    assert forall j | 0 <= j < |c.conditions| :: r.conditions[j] == c.conditions[j];
  }

  // ---------------------------------------------------------------------
  // Removing a boolean subtree

  /** The remove button of a boolean node asks for confirmation when the
      subtree holds more than one simple condition. */
  function RemoveNeedsConfirmation(c: Condition): bool
  {
    c.Boolean? && CountNestedSimpleConditions(c) > 1
  }

  /** Confirmation is asked exactly when more than one leaf would be lost;
      an empty node or a node over a single leaf goes without asking. */
  lemma RemoveNeedsConfirmationIff(c: Condition)
    requires c.Boolean?
    ensures RemoveNeedsConfirmation(c) <==> |Leaves(c)| > 1
    ensures c.conditions == [] ==> !RemoveNeedsConfirmation(c)
    ensures (c.conditions == [NewSimpleChild] || c.conditions == [NewBooleanChild]) ==> !RemoveNeedsConfirmation(c)
  {
    CountIsNumberOfLeaves(c);
    CountSingle(c.connective, NewSimpleChild);
    CountSingle(c.connective, NewBooleanChild);
  }
}
