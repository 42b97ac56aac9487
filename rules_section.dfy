/**
 * The rule list of `src/components/dashboard/configuration/RulesSection.tsx`:
 * the in-place sort of the configuration's rules (by stored index, or by the
 * indices of a reorder request still pending), the request a drag and drop
 * builds, and the request the enable switch sends.
 */
module RulesSection {
  import opened Wrappers
  import opened RuleRouter

  /** A rule as the configuration query lists it. */
  datatype ListedRule = ListedRule(id: RuleId, row: RuleRow)

  /** `variables.find((rule) => rule.id === id)?.index`: the index of the
      first placement naming `id`. */
  function RequestedIndex(request: seq<Placement>, id: RuleId): (r: Option<int>)
    ensures r.None? <==> forall i | 0 <= i < |request| :: request[i].id != id
    ensures r.Some? ==> Placement(id, r.value) in request
  {
    if request == [] then None
    else if request[0].id == id then Some(request[0].index)
    else
      assert request == [request[0]] + request[1..];
      RequestedIndex(request[1..], id)
  }

  /** The index found is the one of the first placement naming `id`, as
      `find` returns. */
  lemma {:induction false} RequestedIndexIsFirst(request: seq<Placement>, id: RuleId)
    requires RequestedIndex(request, id).Some?
    ensures exists k | 0 <= k < |request| ::
      request[k] == Placement(id, RequestedIndex(request, id).value) && forall j | 0 <= j < k :: request[j].id != id
  {
    if request[0].id != id {
      RequestedIndexIsFirst(request[1..], id);
      var k :| 0 <= k < |request[1..]| && request[1..][k] == Placement(id, RequestedIndex(request, id).value)
        && forall j | 0 <= j < k :: request[1..][j].id != id;
      assert request[k + 1] == Placement(id, RequestedIndex(request, id).value);
      assert forall j | 0 <= j < k + 1 :: request[j].id != id by {
        forall j | 0 <= j < k + 1 ensures request[j].id != id {
          if j > 0 {
            assert request[j] == request[1..][j - 1];
          }
        }
      }
    } else {
      assert request[0] == Placement(id, RequestedIndex(request, id).value);
    }
  }

  /** The comparator of the sort: negative when `a` goes first. */
  function Compare(a: ListedRule, b: ListedRule, pending: Option<seq<Placement>>): int
  {
    match pending
    case None => a.row.index - b.row.index
    case Some(request) =>
      var ai := RequestedIndex(request, a.id);
      var bi := RequestedIndex(request, b.id);
      if ai.None? || bi.None? then a.row.index - b.row.index
      else ai.value - bi.value
  }

  /** Swapping the arguments negates the comparison. */
  lemma CompareAntisymmetric(a: ListedRule, b: ListedRule, pending: Option<seq<Placement>>)
    ensures Compare(b, a, pending) == -Compare(a, b, pending)
  {
  }

  /** Every neighbouring pair of `s[lo..hi]` is in comparator order. */
  predicate OrderedBetween(s: seq<ListedRule>, lo: int, hi: int, pending: Option<seq<Placement>>)
    requires 0 <= lo && hi <= |s|
  {
    forall k | lo <= k && k + 1 < hi :: Compare(s[k], s[k + 1], pending) <= 0
  }

  predicate Ordered(s: seq<ListedRule>, pending: Option<seq<Placement>>)
  {
    OrderedBetween(s, 0, |s|, pending)
  }

  /** The exchange of the neighbours at `p` and `p + 1`. */
  function Swapped(s: seq<ListedRule>, p: int): (r: seq<ListedRule>)
    requires 0 <= p < |s| - 1
    ensures |r| == |s| && multiset(r) == multiset(s)
  {
    s[p := s[p + 1]][p + 1 := s[p]]
  }

  /** While the rule taken from position `i` moves left it stands at `j`:
      the rules before it and the rules after it up to `i` are in order,
      it goes before its right neighbour, and its left neighbour goes
      before that right neighbour. */
  predicate Inserting(s: seq<ListedRule>, i: int, j: int, pending: Option<seq<Placement>>)
    requires 0 <= j <= i < |s|
  {
    && OrderedBetween(s, 0, j, pending)
    && OrderedBetween(s, j + 1, i + 1, pending)
    && (j < i ==> Compare(s[j], s[j + 1], pending) < 0)
    && (0 < j < i ==> Compare(s[j - 1], s[j + 1], pending) <= 0)
  }

  lemma InsertingStep(s: seq<ListedRule>, i: int, j: int, pending: Option<seq<Placement>>)
    requires 0 < j <= i < |s| && Inserting(s, i, j, pending)
    requires Compare(s[j - 1], s[j], pending) > 0
    ensures Inserting(Swapped(s, j - 1), i, j - 1, pending)
  {
    CompareAntisymmetric(s[j - 1], s[j], pending);
    var r := Swapped(s, j - 1);
    assert OrderedBetween(r, 0, j - 1, pending) by {
      assert forall k | 0 <= k < j - 1 :: r[k] == s[k];
    }
    assert OrderedBetween(r, j, i + 1, pending) by {
      assert forall k | j + 1 <= k <= i :: r[k] == s[k];
    }
  }

  lemma InsertingDone(s: seq<ListedRule>, i: int, j: int, pending: Option<seq<Placement>>)
    requires 0 <= j <= i < |s| && Inserting(s, i, j, pending)
    requires j == 0 || Compare(s[j - 1], s[j], pending) <= 0
    ensures OrderedBetween(s, 0, i + 1, pending)
  {
  }

  /** `configuration.rules.sort(...)`: an insertion sort that moves each
      rule left past the rules the comparator puts after it. */
  method SortRules(a: array<ListedRule>, pending: Option<seq<Placement>>)
    modifies a
    ensures multiset(a[..]) == multiset(old(a[..]))
    ensures Ordered(a[..], pending)
  {
    var i := 0;
    while i < a.Length
      invariant 0 <= i <= a.Length
      invariant multiset(a[..]) == multiset(old(a[..]))
      invariant OrderedBetween(a[..], 0, i, pending)
    {
      var j := i;
      while j > 0 && Compare(a[j - 1], a[j], pending) > 0
        invariant 0 <= j <= i
        invariant multiset(a[..]) == multiset(old(a[..]))
        invariant Inserting(a[..], i, j, pending)
      {
        ghost var before := a[..];
        InsertingStep(before, i, j, pending);
        a[j - 1], a[j] := a[j], a[j - 1];
        assert a[..] == Swapped(before, j - 1);
        j := j - 1;
      }
      InsertingDone(a[..], i, j, pending);
      i := i + 1;
    }
  }

  /** Without a pending request the comparator orders by stored index, so a
      sorted list is ascending by stored index. */
  lemma {:induction false} SortedByStoredIndex(s: seq<ListedRule>, i: int, j: int)
    requires Ordered(s, None) && 0 <= i <= j < |s|
    ensures s[i].row.index <= s[j].row.index
    decreases j - i
  {
    if i < j {
      SortedByStoredIndex(s, i + 1, j);
      assert Compare(s[i], s[i + 1], None) <= 0;
    }
  }

  /** Every listed rule appears in the pending request. */
  predicate AllRequested(s: seq<ListedRule>, request: seq<Placement>)
  {
    forall k | 0 <= k < |s| :: RequestedIndex(request, s[k].id).Some?
  }

  /** With a pending request that lists every rule, a sorted list is
      ascending by requested index. */
  lemma {:induction false} SortedByRequestedIndex(s: seq<ListedRule>, request: seq<Placement>, i: int, j: int)
    requires Ordered(s, Some(request)) && AllRequested(s, request) && 0 <= i <= j < |s|
    ensures RequestedIndex(request, s[i].id).value <= RequestedIndex(request, s[j].id).value
    decreases j - i
  {
    if i < j {
      SortedByRequestedIndex(s, request, i + 1, j);
      assert Compare(s[i], s[i + 1], Some(request)) <= 0;
    }
  }

  function Stored(id: RuleId, index: int): ListedRule
  {
    ListedRule(id, RuleRow("c", id, true, index, Conditions.DefaultCondition, "t", None))
  }

  /** When the pending request lists only some of the rules the comparator
      is not transitive: here `a` goes before `b` and `b` before `c` by
      stored index, while `c` goes before `a` by requested index. Yet
      `[a, b, c]` is in comparator order, so it is an output the contract
      of `SortRules` allows, with `a` ahead of `c` although `c` was
      requested first. */
  lemma PartialRequestCycle()
    ensures var a, b, c := Stored("a", 0), Stored("b", 1), Stored("c", 2);
      var pending := Some([Placement("a", 2), Placement("c", 0)]);
      && Compare(a, b, pending) < 0 && Compare(b, c, pending) < 0 && Compare(c, a, pending) < 0
      && Ordered([a, b, c], pending)
  {
    var request := [Placement("a", 2), Placement("c", 0)];
    assert RequestedIndex(request, "a") == Some(2);
    assert RequestedIndex(request, "b") == None by {
      assert request[1..] == [Placement("c", 0)];
      assert RequestedIndex(request[1..], "b") == RequestedIndex(request[1..][1..], "b");
    }
    assert RequestedIndex(request, "c") == Some(0) by {
      assert request[1..] == [Placement("c", 0)];
    }
  }

  // ---------------------------------------------------------------------
  // Drag and drop

  /** `findIndex`: the first position holding `x`, or -1. */
  function FindIndex(ids: seq<RuleId>, x: RuleId): (r: int)
    ensures -1 <= r < |ids|
    ensures r == -1 <==> x !in ids
    ensures r >= 0 ==> ids[r] == x && forall k | 0 <= k < r :: ids[k] != x
  {
    if ids == [] then -1
    else if ids[0] == x then 0
    else
      var r := FindIndex(ids[1..], x);
      if r == -1 then -1 else r + 1
  }

  /** `arrayMove` of dnd-kit: take out the element at `from` and put it
      back so that it stands at `to`. */
  function ArrayMove<T>(s: seq<T>, from: nat, to: nat): (r: seq<T>)
    requires from < |s| && to < |s|
  {
    var rest := s[..from] + s[from + 1..];
    rest[..to] + [s[from]] + rest[to..]
  }

  /** The moved element lands at `to`; taking it out again gives the other
      elements in their original order; nothing is lost or duplicated. */
  lemma ArrayMoveSpec<T>(s: seq<T>, from: nat, to: nat)
    requires from < |s| && to < |s|
    ensures var r := ArrayMove(s, from, to);
      && |r| == |s|
      && r[to] == s[from]
      && r[..to] + r[to + 1..] == s[..from] + s[from + 1..]
      && multiset(r) == multiset(s)
  {
    var rest := s[..from] + s[from + 1..];
    var r := ArrayMove(s, from, to);
    assert r[..to] == rest[..to];
    assert r[to + 1..] == rest[to..];
    assert rest[..to] + rest[to..] == rest;
    calc {
      multiset(r);
      multiset(rest[..to]) + multiset([s[from]]) + multiset(rest[to..]);
      { assert rest[..to] + rest[to..] == rest; }
      multiset(rest) + multiset([s[from]]);
      { assert s == s[..from] + [s[from]] + s[from + 1..]; }
      multiset(s);
    }
  }

  /** `.map((id, index) => ({ id, index }))`. */
  function Numbered(ids: seq<RuleId>): (r: seq<Placement>)
    ensures |r| == |ids|
    ensures forall i | 0 <= i < |r| :: r[i] == Placement(ids[i], i)
  {
    seq(|ids|, i requires 0 <= i < |ids| => Placement(ids[i], i))
  }

  function RuleIds(rules: seq<ListedRule>): (r: seq<RuleId>)
    ensures |r| == |rules| && forall i | 0 <= i < |rules| :: r[i] == rules[i].id
  {
    if rules == [] then [] else [rules[0].id] + RuleIds(rules[1..])
  }

  /** `handleDragEnd`: `over` is absent when the item is dropped outside
      the list. */
  function DragEndRequest(rules: seq<ListedRule>, active: RuleId, over: Option<RuleId>): Option<seq<Placement>>
  {
    if over == Some(active) then None
    else
      var ids := RuleIds(rules);
      var oldIndex := FindIndex(ids, active);
      var newIndex := if over.Some? then FindIndex(ids, over.value) else -1;
      if oldIndex == -1 || newIndex == -1 then None
      else Some(Numbered(ArrayMove(ids, oldIndex, newIndex)))
  }

  predicate DistinctRuleIds(rules: seq<ListedRule>)
  {
    forall i, j | 0 <= i < j < |rules| :: rules[i].id != rules[j].id
  }

  /** No request when the item is dropped on itself, outside the list, or
      when either id is not in the list. */
  lemma DragEndNoRequest(rules: seq<ListedRule>, active: RuleId, over: Option<RuleId>)
    ensures DragEndRequest(rules, active, over).None? <==>
      over == Some(active) || over.None? || active !in RuleIds(rules) || over.value !in RuleIds(rules)
  {
  }

  /** A request built from a list with distinct ids numbers a permutation of
      the listed ids `0..n-1` in list order, so it passes the duplicate
      check of `updateOrder`; the dragged rule stands at the drop position
      and the others keep their relative order. */
  lemma DragEndRequestSpec(rules: seq<ListedRule>, active: RuleId, over: RuleId)
    requires DistinctRuleIds(rules)
    requires active != over && active in RuleIds(rules) && over in RuleIds(rules)
    ensures var ids := RuleIds(rules);
      var from, to := FindIndex(ids, active), FindIndex(ids, over);
      var request := DragEndRequest(rules, active, Some(over));
      && 0 <= from < |ids| && 0 <= to < |ids| && ids[from] == active
      && request.Some? && MovedNumbering(request.value, ids, from, to)
  {
    var ids := RuleIds(rules);
    var from, to := FindIndex(ids, active), FindIndex(ids, over);
    DragEndIsMove(rules, active, over);
    DistinctListedIds(rules);
    MoveRequestSpec(ids, from, to);
  }

  lemma DragEndIsMove(rules: seq<ListedRule>, active: RuleId, over: RuleId)
    requires active != over && active in RuleIds(rules) && over in RuleIds(rules)
    ensures var ids := RuleIds(rules);
      DragEndRequest(rules, active, Some(over)) == Some(Numbered(ArrayMove(ids, FindIndex(ids, active), FindIndex(ids, over))))
  {
  }

  lemma DistinctListedIds(rules: seq<ListedRule>)
    requires DistinctRuleIds(rules)
    ensures var ids := RuleIds(rules); forall p, q | 0 <= p < q < |ids| :: ids[p] != ids[q]
  {
  }

  /** `request` numbers `0..n-1` a repeat-free permutation of `ids` in
      which the id from position `from` stands at `to` and the other ids
      keep their relative order. */
  predicate MovedNumbering(request: seq<Placement>, ids: seq<RuleId>, from: nat, to: nat)
    requires from < |ids| && to < |ids|
  {
    && |request| == |ids|
    && (forall i | 0 <= i < |ids| :: request[i].index == i)
    && DistinctIds(request)
    && multiset(RequestIds(request)) == multiset(ids)
    && request[to].id == ids[from]
    && RequestIds(request)[..to] + RequestIds(request)[to + 1..] == ids[..from] + ids[from + 1..]
  }

  /** The numbered move of distinct ids. */
  lemma MoveRequestSpec(ids: seq<RuleId>, from: nat, to: nat)
    requires from < |ids| && to < |ids|
    requires forall p, q | 0 <= p < q < |ids| :: ids[p] != ids[q]
    ensures MovedNumbering(Numbered(ArrayMove(ids, from, to)), ids, from, to)
  {
    var moved := ArrayMove(ids, from, to);
    ArrayMoveSpec(ids, from, to);
    NumberedIds(moved);
    MovedDistinct(ids, from, to);
  }

  /** Numbering keeps the ids in order. */
  lemma NumberedIds(ids: seq<RuleId>)
    ensures RequestIds(Numbered(ids)) == ids
  {
  }

  lemma MovedDistinct(ids: seq<RuleId>, from: nat, to: nat)
    requires from < |ids| && to < |ids|
    requires forall p, q | 0 <= p < q < |ids| :: ids[p] != ids[q]
    ensures DistinctIds(Numbered(ArrayMove(ids, from, to)))
  {
    var moved := ArrayMove(ids, from, to);
    ArrayMoveSpec(ids, from, to);
    var request := Numbered(moved);
    forall i, j | 0 <= i < j < |request| ensures request[i].id != request[j].id {
      DistinctAfterMove(ids, moved, i, j);
    }
  }

  /** The ids of a request, in its order. */
  function RequestIds(request: seq<Placement>): seq<RuleId>
  {
    seq(|request|, i requires 0 <= i < |request| => request[i].id)
  }

  /** A permutation of a sequence without repeats has no repeats. */
  lemma DistinctAfterMove(ids: seq<RuleId>, moved: seq<RuleId>, i: int, j: int)
    requires forall p, q | 0 <= p < q < |ids| :: ids[p] != ids[q]
    requires multiset(moved) == multiset(ids) && 0 <= i < j < |moved|
    ensures moved[i] != moved[j]
  {
    if moved[i] == moved[j] {
      var x := moved[i];
      assert multiset(moved)[x] >= 2 by {
        assert moved == moved[..i] + [x] + moved[i + 1..j] + [x] + moved[j + 1..];
      }
      Unrepeated(ids, x);
      assert false;
    }
  }

  lemma {:induction false} Unrepeated(ids: seq<RuleId>, x: RuleId)
    requires forall p, q | 0 <= p < q < |ids| :: ids[p] != ids[q]
    ensures multiset(ids)[x] <= 1
  {
    if ids != [] {
      Unrepeated(ids[1..], x);
      assert ids == [ids[0]] + ids[1..];
      if ids[0] == x {
        assert x !in ids[1..];
      }
    }
  }

  // ---------------------------------------------------------------------
  // The enable switch

  /** The input of `rule.update` that `handleEnabledClick(!rule.enabled)`
      sends. */
  datatype UpdateRequest = UpdateRequest(id: RuleId, name: string, enabled: bool, themeId: ThemeId)

  function EnabledClickRequest(rule: ListedRule): UpdateRequest
  {
    UpdateRequest(rule.id, rule.row.name, !rule.row.enabled, rule.row.themeId)
  }

  /** The update the switch sends flips `enabled` of a stored rule (whose
      name was trimmed when it was written) and leaves the rest of the row
      alone; a second click restores the row. */
  lemma EnabledClickToggles(id: RuleId, row: RuleRow)
    requires Trim(row.name) == row.name
    ensures var req := EnabledClickRequest(ListedRule(id, row));
      && req.id == id
      && Edited(row, req.name, req.enabled, req.themeId) == row.(enabled := !row.enabled)
      && var row' := Edited(row, req.name, req.enabled, req.themeId);
         var req' := EnabledClickRequest(ListedRule(id, row'));
         Edited(row', req'.name, req'.enabled, req'.themeId) == row
  {
  }
}
