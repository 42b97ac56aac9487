/**
 * The rule router of `src/server/api/routers/rule.ts`: the stored rule rows
 * of every configuration, the handlers that create, edit, reorder and delete
 * them, and the unique constraint on a rule's index inside its
 * configuration that the two-phase `updateOrder` transaction works around.
 * The caller's identity is an explicit parameter; the database becomes maps
 * and a transaction becomes a local copy that is committed only at the end.
 */
module RuleRouter {
  import opened Wrappers
  import opened Conditions
  import opened IntSets

  type RuleId = string
  type ConfigurationId = string
  type ThemeId = string
  type UserId = string

  /** A stored rule row. */
  datatype RuleRow = RuleRow(
    configurationId: ConfigurationId,
    name: string,
    enabled: bool,
    index: int,
    condition: Condition,
    themeId: ThemeId,
    internalGroup: Option<string>)

  type Table = map<RuleId, RuleRow>

  /** The errors a handler raises: input validation (`BAD_REQUEST`), the
      ownership guards (`UNAUTHORIZED`), an update or delete whose `where`
      matches no row, and the unique constraint on the index. */
  datatype RouterError = BadRequest | Unauthorized | RecordNotFound | UniqueConstraintFailed

  // ---------------------------------------------------------------------
  // Input validation

  /** `z.string().min(1)`. */
  predicate NonEmpty(s: string)
  {
    |s| >= 1
  }

  /** The characters `String.prototype.trim` removes: the ECMAScript
      WhiteSpace and LineTerminator code points. */
  predicate IsWhitespace(c: char)
  {
    c == '\t' || c == '\n' || c == '\U{000B}' || c == '\U{000C}' || c == '\r' || c == ' '
    || c == '\U{00A0}' || c == '\U{1680}' || ('\U{2000}' <= c <= '\U{200A}')
    || c == '\U{2028}' || c == '\U{2029}' || c == '\U{202F}' || c == '\U{205F}'
    || c == '\U{3000}' || c == '\U{FEFF}'
  }

  function TrimStart(s: string): (r: string)
    ensures |r| <= |s| && r == s[|s| - |r|..]
    ensures r == [] || !IsWhitespace(r[0])
    ensures forall i | 0 <= i < |s| - |r| :: IsWhitespace(s[i])
  {
    if s != [] && IsWhitespace(s[0]) then
      var r := TrimStart(s[1..]);
      assert s[1..][|s| - 1 - |r|..] == s[|s| - |r|..];
      assert forall i | 1 <= i < |s| - |r| :: s[i] == s[1..][i - 1];
      r
    else s
  }

  function TrimEnd(s: string): (r: string)
    ensures |r| <= |s| && r == s[..|r|]
    ensures r == [] || !IsWhitespace(r[|r| - 1])
    ensures forall i | |r| <= i < |s| :: IsWhitespace(s[i])
  {
    if s != [] && IsWhitespace(s[|s| - 1]) then
      var r := TrimEnd(s[..|s| - 1]);
      assert s[..|s| - 1][..|r|] == s[..|r|];
      assert forall i | |r| <= i < |s| - 1 :: s[i] == s[..|s| - 1][i];
      r
    else s
  }

  /** `z.string().trim()`: the longest infix that neither starts nor ends
      with whitespace, once the whitespace around it is removed. */
  function Trim(s: string): string
  {
    TrimEnd(TrimStart(s))
  }

  /** `r` is `s` with the whitespace before position `k` and after `r` removed. */
  predicate PaddedBy(s: string, r: string, k: int)
  {
    0 <= k <= |s| - |r| && s[k..k + |r|] == r
    && (forall i | 0 <= i < k :: IsWhitespace(s[i]))
    && (forall i | k + |r| <= i < |s| :: IsWhitespace(s[i]))
  }

  /** Trimming leaves no whitespace at either end and drops only whitespace. */
  lemma TrimmedEnds(s: string)
    ensures var r := Trim(s);
      && (r == [] || (!IsWhitespace(r[0]) && !IsWhitespace(r[|r| - 1])))
      && exists k :: PaddedBy(s, r, k)
  {
    var t := TrimStart(s);
    var r := TrimEnd(t);
    PaddedByParts(s, t, r);
    if r != [] {
      assert r[0] == t[0];
    }
  }

  /** Whitespace cut from the front and then from the back. */
  lemma PaddedByParts(s: string, t: string, r: string)
    requires |t| <= |s| && t == s[|s| - |t|..] && (forall i | 0 <= i < |s| - |t| :: IsWhitespace(s[i]))
    requires |r| <= |t| && r == t[..|r|] && (forall i | |r| <= i < |t| :: IsWhitespace(t[i]))
    ensures PaddedBy(s, r, |s| - |t|)
  {
    var k := |s| - |t|;
    assert s[k..k + |r|] == r;
    forall i | k + |r| <= i < |s| ensures IsWhitespace(s[i]) {
      assert s[i] == t[i - k];
    }
  }

  /** A trimmed name is stored as it is. */
  lemma TrimIdempotent(s: string)
    ensures Trim(Trim(s)) == Trim(s)
  {
    var r := Trim(s);
    TrimmedEnds(s);
    assert TrimStart(r) == r;
    assert TrimEnd(r) == r;
  }

  // ---------------------------------------------------------------------
  // The unique constraint and the transaction's writes

  /** No two rules of one configuration share an index. */
  predicate UniqueIndices(t: Table)
  {
    forall a, b | a in t && b in t && a != b && t[a].configurationId == t[b].configurationId ::
      t[a].index != t[b].index
  }

  /** Stored indices are never negative outside a transaction. */
  predicate NonNegativeIndices(t: Table)
  {
    forall id | id in t :: t[id].index >= 0
  }

  /** One `{id, index}` element of the `updateOrder` input, and one
      `rule.update` of its transaction. */
  datatype Placement = Placement(id: RuleId, index: int)

  predicate Listed(t: Table, ws: seq<Placement>)
  {
    forall i | 0 <= i < |ws| :: ws[i].id in t
  }

  /** The ids of the first `k` placements. */
  function IdsUpTo(ws: seq<Placement>, k: int): set<RuleId>
    requires 0 <= k <= |ws|
  {
    set i | 0 <= i < k :: ws[i].id
  }

  function Ids(ws: seq<Placement>): set<RuleId>
  {
    IdsUpTo(ws, |ws|)
  }

  predicate DistinctIds(ws: seq<Placement>)
  {
    forall i, j | 0 <= i < j < |ws| :: ws[i].id != ws[j].id
  }

  function SetIndex(t: Table, id: RuleId, index: int): (r: Table)
    requires id in t
    ensures r.Keys == t.Keys
  {
    t[id := t[id].(index := index)]
  }

  /** Writing `w` would give its rule an index another rule of the same
      configuration already holds. */
  predicate Collides(t: Table, w: Placement)
    requires w.id in t
  {
    exists o | o in t :: o != w.id && t[o].configurationId == t[w.id].configurationId && t[o].index == w.index
  }

  /** The writes of one transaction in order: the first write whose rule
      does not exist, or that violates the unique constraint, aborts the
      whole transaction. */
  function ApplyWrites(t: Table, ws: seq<Placement>): (r: Result<Table, RouterError>)
    ensures r.Ok? ==> r.value.Keys == t.Keys
    ensures Listed(t, ws) ==> r != Err(RecordNotFound)
    decreases |ws|
  {
    if ws == [] then Ok(t)
    else if ws[0].id !in t then Err(RecordNotFound)
    else if Collides(t, ws[0]) then Err(UniqueConstraintFailed)
    else ApplyWrites(SetIndex(t, ws[0].id, ws[0].index), ws[1..])
  }

  /** The requested index of each of the first `k` ids (a later request wins). */
  function TargetsUpTo(ws: seq<Placement>, k: int): map<RuleId, int>
    requires 0 <= k <= |ws|
  {
    if k == 0 then map[] else TargetsUpTo(ws, k - 1)[ws[k - 1].id := ws[k - 1].index]
  }

  function Targets(ws: seq<Placement>): map<RuleId, int>
  {
    TargetsUpTo(ws, |ws|)
  }

  /** The table with the indices of `m` written over it. */
  function Reindexed(t: Table, m: map<RuleId, int>): (r: Table)
    ensures r.Keys == t.Keys
    ensures forall id | id in t :: r[id].configurationId == t[id].configurationId
    ensures forall id | id in t && id in m :: r[id].index == m[id]
    ensures forall id | id in t && id !in m :: r[id] == t[id]
  {
    map id | id in t :: if id in m then t[id].(index := m[id]) else t[id]
  }

  /** `-rule.index - 1`, the scratch index of the first phase: negative for
      every valid index, and different for different indices. */
  function ScratchIndex(index: int): (s: int)
    ensures index >= 0 ==> s < 0
    ensures s + 1 == -index
  {
    -index - 1
  }

  function Negated(m: map<RuleId, int>): (r: map<RuleId, int>)
    ensures r.Keys == m.Keys
    ensures forall id | id in m :: r[id] == ScratchIndex(m[id])
  {
    map id | id in m :: ScratchIndex(m[id])
  }

  /** `intermediateUpdatePromises`. */
  function Scratch(ws: seq<Placement>): (r: seq<Placement>)
    ensures |r| == |ws| && forall i | 0 <= i < |ws| :: r[i] == Placement(ws[i].id, ScratchIndex(ws[i].index))
  {
    if ws == [] then [] else [Placement(ws[0].id, ScratchIndex(ws[0].index))] + Scratch(ws[1..])
  }

  /** With distinct ids, the targets of the first `k` placements are keyed
      by their ids and give each its requested index. */
  lemma {:induction false} TargetsAt(ws: seq<Placement>, k: int)
    requires DistinctIds(ws) && 0 <= k <= |ws|
    ensures TargetsUpTo(ws, k).Keys == IdsUpTo(ws, k)
    ensures forall i | 0 <= i < k :: TargetsUpTo(ws, k)[ws[i].id] == ws[i].index
  {
    if k > 0 {
      TargetsAt(ws, k - 1);
      assert IdsUpTo(ws, k) == IdsUpTo(ws, k - 1) + {ws[k - 1].id};
    }
  }

  lemma {:induction false} ApplyWritesConcat(t: Table, a: seq<Placement>, b: seq<Placement>)
    requires Listed(t, a) && Listed(t, b)
    ensures Listed(t, a + b)
    ensures ApplyWrites(t, a + b) == match ApplyWrites(t, a)
      case Err(e) => Err(e)
      case Ok(t') => ApplyWrites(t', b)
  {
    assert Listed(t, a + b) by {
      forall i | 0 <= i < |a + b| ensures (a + b)[i].id in t {
        if i >= |a| { assert (a + b)[i] == b[i - |a|]; }
      }
    }
    if a == [] {
      assert a + b == b;
    } else if !Collides(t, a[0]) {
      assert (a + b)[0] == a[0];
      assert (a + b)[1..] == a[1..] + b;
      ApplyWritesConcat(SetIndex(t, a[0].id, a[0].index), a[1..], b);
    } else {
      assert (a + b)[0] == a[0];
    }
  }

  lemma ReindexedSet(t: Table, m: map<RuleId, int>, id: RuleId, v: int)
    requires id in t
    ensures SetIndex(Reindexed(t, m), id, v) == Reindexed(t, m[id := v])
  {
  }

  lemma ReindexedOver(t: Table, m: map<RuleId, int>, m': map<RuleId, int>)
    requires m.Keys == m'.Keys
    ensures Reindexed(Reindexed(t, m), m') == Reindexed(t, m')
  {
  }

  lemma ReindexedEmpty(t: Table)
    ensures Reindexed(t, map[]) == t
  {
  }

  /** Rules `ws[i]` and `ws[j]` belong to the same configuration. */
  predicate SameConfiguration(t: Table, ws: seq<Placement>, i: int, j: int)
    requires Listed(t, ws) && 0 <= i < |ws| && 0 <= j < |ws|
  {
    t[ws[i].id].configurationId == t[ws[j].id].configurationId
  }

  /** No earlier placement of the same configuration asks for the index of `ws[k]`. */
  predicate FreshTarget(t: Table, ws: seq<Placement>, k: int)
    requires Listed(t, ws) && 0 <= k < |ws|
  {
    forall j | 0 <= j < k && SameConfiguration(t, ws, j, k) :: ws[j].index != ws[k].index
  }

  /** Among the first `k` placements, two of one configuration ask for different indices. */
  predicate DistinctTargetsUpTo(t: Table, ws: seq<Placement>, k: int)
    requires Listed(t, ws) && 0 <= k <= |ws|
  {
    forall j | 0 <= j < k :: FreshTarget(t, ws, j)
  }

  predicate DistinctTargets(t: Table, ws: seq<Placement>)
    requires Listed(t, ws)
  {
    DistinctTargetsUpTo(t, ws, |ws|)
  }

  /** No unlisted rule of the configuration of `ws[i]` holds its requested index. */
  predicate ClearOfUnlisted(t: Table, ws: seq<Placement>, i: int)
    requires Listed(t, ws) && 0 <= i < |ws|
  {
    forall o | o in t && o !in Ids(ws) && t[o].configurationId == t[ws[i].id].configurationId ::
      t[o].index != ws[i].index
  }

  predicate ClearUpTo(t: Table, ws: seq<Placement>, k: int)
    requires Listed(t, ws) && 0 <= k <= |ws|
  {
    forall i | 0 <= i < k :: ClearOfUnlisted(t, ws, i)
  }

  // ---------------------------------------------------------------------
  // The two phases

  /** The table after the first `k` scratch writes. */
  function Phase1State(t: Table, ws: seq<Placement>, k: int): Table
    requires 0 <= k <= |ws|
  {
    Reindexed(t, Negated(TargetsUpTo(ws, k)))
  }

  /** The table after all scratch writes and the first `k` final writes. */
  function Phase2State(t: Table, ws: seq<Placement>, k: int): Table
    requires 0 <= k <= |ws|
  {
    Reindexed(Phase1State(t, ws, |ws|), TargetsUpTo(ws, k))
  }

  lemma NegatedSet(m: map<RuleId, int>, id: RuleId, v: int)
    ensures Negated(m[id := v]) == Negated(m)[id := ScratchIndex(v)]
  {
  }

  /** The `k`-th scratch write collides iff an earlier placement of the same
      configuration asks for the same index. */
  lemma Phase1Step(t: Table, ws: seq<Placement>, k: int)
    requires Listed(t, ws) && DistinctIds(ws) && NonNegativeIndices(t) && 0 <= k < |ws|
    requires forall i | 0 <= i < |ws| :: ws[i].index >= 0
    ensures ws[k].id in Phase1State(t, ws, k)
    ensures Collides(Phase1State(t, ws, k), Placement(ws[k].id, ScratchIndex(ws[k].index)))
      <==> !FreshTarget(t, ws, k)
  {
    TargetsAt(ws, k);
    if Collides(Phase1State(t, ws, k), Placement(ws[k].id, ScratchIndex(ws[k].index))) {
      Phase1CollisionIsRepeat(t, ws, k);
    }
    if !FreshTarget(t, ws, k) {
      Phase1RepeatCollides(t, ws, k);
    }
  }

  /** A scratch index can only be held by the scratch write of the same target. */
  lemma Phase1CollisionIsRepeat(t: Table, ws: seq<Placement>, k: int)
    requires Listed(t, ws) && NonNegativeIndices(t) && 0 <= k < |ws|
    requires forall i | 0 <= i < |ws| :: ws[i].index >= 0
    requires TargetsUpTo(ws, k).Keys == IdsUpTo(ws, k)
    requires forall i | 0 <= i < k :: TargetsUpTo(ws, k)[ws[i].id] == ws[i].index
    requires Collides(Phase1State(t, ws, k), Placement(ws[k].id, ScratchIndex(ws[k].index)))
    ensures !FreshTarget(t, ws, k)
  {
    var targets := TargetsUpTo(ws, k);
    var m := Negated(targets);
    var s := Reindexed(t, m);
    var w := ws[k];
    var o :| o in s && o != w.id && s[o].configurationId == s[w.id].configurationId && s[o].index == ScratchIndex(w.index);
    assert o in m;
    assert o in IdsUpTo(ws, k);
    var j :| 0 <= j < k && ws[j].id == o;
    assert s[o].index == ScratchIndex(ws[j].index);
    assert SameConfiguration(t, ws, j, k);
  }

  /** An earlier placement with the same target holds the same scratch index. */
  lemma Phase1RepeatCollides(t: Table, ws: seq<Placement>, k: int)
    requires Listed(t, ws) && DistinctIds(ws) && 0 <= k < |ws|
    requires TargetsUpTo(ws, k).Keys == IdsUpTo(ws, k)
    requires forall i | 0 <= i < k :: TargetsUpTo(ws, k)[ws[i].id] == ws[i].index
    requires !FreshTarget(t, ws, k)
    ensures Collides(Phase1State(t, ws, k), Placement(ws[k].id, ScratchIndex(ws[k].index)))
  {
    var s := Phase1State(t, ws, k);
    var j :| 0 <= j < k && SameConfiguration(t, ws, j, k) && ws[j].index == ws[k].index;
    var o := ws[j].id;
    assert o in IdsUpTo(ws, k);
    assert s[o].index == ScratchIndex(ws[k].index);
    assert o != ws[k].id && s[o].configurationId == s[ws[k].id].configurationId;
  }

  /** Otherwise the scratch write yields the next state. */
  lemma Phase1Advance(t: Table, ws: seq<Placement>, k: int)
    requires Listed(t, ws) && 0 <= k < |ws|
    ensures SetIndex(Phase1State(t, ws, k), ws[k].id, ScratchIndex(ws[k].index)) == Phase1State(t, ws, k + 1)
  {
    ReindexedSet(t, Negated(TargetsUpTo(ws, k)), ws[k].id, ScratchIndex(ws[k].index));
    NegatedSet(TargetsUpTo(ws, k), ws[k].id, ws[k].index);
  }

  /** The scratch writes from the `k`-th on succeed iff no two listed rules
      of one configuration ask for the same index: stored indices are not
      negative, so a scratch index can only collide with the scratch index
      of an earlier write with the same target. */
  lemma {:induction false} Phase1From(t: Table, ws: seq<Placement>, k: int)
    requires Listed(t, ws) && DistinctIds(ws) && NonNegativeIndices(t) && 0 <= k <= |ws|
    requires forall i | 0 <= i < |ws| :: ws[i].index >= 0
    requires DistinctTargetsUpTo(t, ws, k)
    ensures Listed(Phase1State(t, ws, k), Scratch(ws)[k..])
    ensures ApplyWrites(Phase1State(t, ws, k), Scratch(ws)[k..])
      == if DistinctTargets(t, ws) then Ok(Phase1State(t, ws, |ws|)) else Err(UniqueConstraintFailed)
    decreases |ws| - k
  {
    var rest := Scratch(ws)[k..];
    if k < |ws| {
      var s, sw := Phase1State(t, ws, k), Placement(ws[k].id, ScratchIndex(ws[k].index));
      Phase1Step(t, ws, k);
      assert rest[0] == sw;
      assert rest[1..] == Scratch(ws)[k + 1..];
      if FreshTarget(t, ws, k) {
        Phase1Advance(t, ws, k);
        assert ApplyWrites(s, rest) == ApplyWrites(SetIndex(s, sw.id, sw.index), rest[1..]);
        assert DistinctTargetsUpTo(t, ws, k + 1);
        Phase1From(t, ws, k + 1);
      } else {
        assert ApplyWrites(s, rest) == Err(UniqueConstraintFailed);
        assert !DistinctTargets(t, ws);
      }
    }
  }

  /** After the scratch writes, the `k`-th final write collides iff an
      unlisted rule of its configuration holds its index: listed rules hold
      either their target or a negative scratch index. */
  lemma Phase2Step(t: Table, ws: seq<Placement>, k: int)
    requires Listed(t, ws) && DistinctIds(ws) && NonNegativeIndices(t) && 0 <= k < |ws|
    requires forall i | 0 <= i < |ws| :: ws[i].index >= 0
    requires DistinctTargets(t, ws)
    ensures ws[k].id in Phase2State(t, ws, k)
    ensures Collides(Phase2State(t, ws, k), ws[k]) <==> !ClearOfUnlisted(t, ws, k)
    ensures SetIndex(Phase2State(t, ws, k), ws[k].id, ws[k].index) == Phase2State(t, ws, k + 1)
  {
    var s1 := Phase1State(t, ws, |ws|);
    var s := Phase2State(t, ws, k);
    var w := ws[k];
    TargetsAt(ws, k);
    TargetsAt(ws, |ws|);
    if Collides(s, w) {
      var o :| o in s && o != w.id && s[o].configurationId == s[w.id].configurationId && s[o].index == w.index;
      if o in Ids(ws) {
        var j :| 0 <= j < |ws| && ws[j].id == o;
        Phase2ListedApart(t, ws, k, j);
        assert false;
      }
      assert s[o] == t[o];
    }
    if !ClearOfUnlisted(t, ws, k) {
      var o :| o in t && o !in Ids(ws) && t[o].configurationId == t[w.id].configurationId && t[o].index == w.index;
      assert o !in IdsUpTo(ws, k);
      assert s[o] == t[o];
    }
    ReindexedSet(s1, TargetsUpTo(ws, k), w.id, w.index);
  }

  /** Before the `k`-th final write, another listed rule of the same
      configuration holds either its own distinct target or a scratch index. */
  lemma Phase2ListedApart(t: Table, ws: seq<Placement>, k: int, j: int)
    requires Listed(t, ws) && DistinctIds(ws) && 0 <= k < |ws| && 0 <= j < |ws| && j != k
    requires forall i | 0 <= i < |ws| :: ws[i].index >= 0
    requires DistinctTargets(t, ws) && SameConfiguration(t, ws, j, k)
    ensures Phase2State(t, ws, k)[ws[j].id].index != ws[k].index
  {
    TargetsAt(ws, k);
    TargetsAt(ws, |ws|);
    var s1 := Phase1State(t, ws, |ws|);
    if j < k {
      assert FreshTarget(t, ws, k);
    } else {
      assert ws[j].id !in IdsUpTo(ws, k);
      assert s1[ws[j].id].index == ScratchIndex(ws[j].index);
    }
  }

  lemma {:induction false} Phase2From(t: Table, ws: seq<Placement>, k: int)
    requires Listed(t, ws) && DistinctIds(ws) && NonNegativeIndices(t) && 0 <= k <= |ws|
    requires forall i | 0 <= i < |ws| :: ws[i].index >= 0
    requires DistinctTargets(t, ws) && ClearUpTo(t, ws, k)
    ensures Listed(Phase2State(t, ws, k), ws[k..])
    ensures ApplyWrites(Phase2State(t, ws, k), ws[k..])
      == if ClearUpTo(t, ws, |ws|) then Ok(Phase2State(t, ws, |ws|)) else Err(UniqueConstraintFailed)
    decreases |ws| - k
  {
    var rest := ws[k..];
    if k < |ws| {
      var s := Phase2State(t, ws, k);
      Phase2Step(t, ws, k);
      assert rest[0] == ws[k];
      assert rest[1..] == ws[k + 1..];
      if ClearOfUnlisted(t, ws, k) {
        assert ApplyWrites(s, rest) == ApplyWrites(SetIndex(s, ws[k].id, ws[k].index), rest[1..]);
        assert ClearUpTo(t, ws, k + 1);
        Phase2From(t, ws, k + 1);
      } else {
        assert ApplyWrites(s, rest) == Err(UniqueConstraintFailed);
        assert !ClearUpTo(t, ws, |ws|);
      }
    }
  }

  /** The reordered table keeps the unique constraint iff the requested
      indices are distinct per configuration and held by no unlisted rule. */
  lemma ReorderedUniqueIff(t: Table, ws: seq<Placement>)
    requires Listed(t, ws) && DistinctIds(ws) && UniqueIndices(t)
    ensures UniqueIndices(Reindexed(t, Targets(ws)))
      <==> DistinctTargets(t, ws) && ClearUpTo(t, ws, |ws|)
  {
    TargetsAt(ws, |ws|);
    if UniqueIndices(Reindexed(t, Targets(ws))) {
      ReorderedUniqueNeeds(t, ws);
    }
    if DistinctTargets(t, ws) && ClearUpTo(t, ws, |ws|) {
      ReorderedUniqueSuffices(t, ws);
    }
  }

  lemma ReorderedUniqueNeeds(t: Table, ws: seq<Placement>)
    requires Listed(t, ws) && DistinctIds(ws)
    requires Targets(ws).Keys == Ids(ws)
    requires forall i | 0 <= i < |ws| :: Targets(ws)[ws[i].id] == ws[i].index
    requires UniqueIndices(Reindexed(t, Targets(ws)))
    ensures DistinctTargets(t, ws) && ClearUpTo(t, ws, |ws|)
  {
    var r := Reindexed(t, Targets(ws));
    forall k | 0 <= k < |ws| ensures FreshTarget(t, ws, k) {
      forall j | 0 <= j < k && SameConfiguration(t, ws, j, k) ensures ws[j].index != ws[k].index {
        assert r[ws[j].id].index == ws[j].index && r[ws[k].id].index == ws[k].index;
      }
    }
    forall i | 0 <= i < |ws| ensures ClearOfUnlisted(t, ws, i) {
      forall o | o in t && o !in Ids(ws) && t[o].configurationId == t[ws[i].id].configurationId
        ensures t[o].index != ws[i].index
      {
        assert o !in Targets(ws);
        assert r[o] == t[o] && r[ws[i].id].index == ws[i].index;
      }
    }
  }

  lemma ReorderedUniqueSuffices(t: Table, ws: seq<Placement>)
    requires Listed(t, ws) && UniqueIndices(t)
    requires Targets(ws).Keys == Ids(ws)
    requires forall i | 0 <= i < |ws| :: Targets(ws)[ws[i].id] == ws[i].index
    requires DistinctTargets(t, ws) && ClearUpTo(t, ws, |ws|)
    ensures UniqueIndices(Reindexed(t, Targets(ws)))
  {
    var r := Reindexed(t, Targets(ws));
    forall a, b | a in r && b in r && a != b && r[a].configurationId == r[b].configurationId
      ensures r[a].index != r[b].index
    {
      if a in Ids(ws) && b in Ids(ws) {
        var i :| 0 <= i < |ws| && ws[i].id == a;
        var j :| 0 <= j < |ws| && ws[j].id == b;
        if i < j {
          assert FreshTarget(t, ws, j) && SameConfiguration(t, ws, i, j);
        } else {
          assert FreshTarget(t, ws, i) && SameConfiguration(t, ws, j, i);
        }
      } else if a in Ids(ws) {
        var i :| 0 <= i < |ws| && ws[i].id == a;
        assert ClearOfUnlisted(t, ws, i);
      } else if b in Ids(ws) {
        var j :| 0 <= j < |ws| && ws[j].id == b;
        assert ClearOfUnlisted(t, ws, j);
      }
    }
  }

  /** The two-phase transaction: it commits exactly when the reordered
      table keeps the unique constraint, and then it yields that table. */
  lemma TwoPhaseOutcome(t: Table, ws: seq<Placement>)
    requires Listed(t, ws) && DistinctIds(ws) && UniqueIndices(t) && NonNegativeIndices(t)
    requires forall i | 0 <= i < |ws| :: ws[i].index >= 0
    ensures Listed(t, Scratch(ws) + ws)
    ensures ApplyWrites(t, Scratch(ws) + ws)
      == if UniqueIndices(Reindexed(t, Targets(ws))) then Ok(Reindexed(t, Targets(ws))) else Err(UniqueConstraintFailed)
  {
    ReindexedEmpty(t);
    assert Phase1State(t, ws, 0) == t;
    ApplyWritesConcat(t, Scratch(ws), ws);
    Phase1From(t, ws, 0);
    assert Scratch(ws)[0..] == Scratch(ws);
    ReorderedUniqueIff(t, ws);
    if DistinctTargets(t, ws) {
      var s1 := Phase1State(t, ws, |ws|);
      ReindexedEmpty(s1);
      assert Phase2State(t, ws, 0) == s1;
      Phase2From(t, ws, 0);
      assert ws[0..] == ws;
      ReindexedOver(t, Negated(Targets(ws)), Targets(ws));
    }
  }

  /** Swapping the indices of two rules with one write each, without the
      scratch phase, trips the unique constraint on the first write; the
      two-phase transaction swaps them. */
  lemma SinglePassSwapFails(a: RuleRow, b: RuleRow)
    requires a.configurationId == b.configurationId && a.index == 0 && b.index == 1
    ensures var t := map["a" := a, "b" := b];
      var swap := [Placement("a", 1), Placement("b", 0)];
      && ApplyWrites(t, swap) == Err(UniqueConstraintFailed)
      && ApplyWrites(t, Scratch(swap) + swap) == Ok(map["a" := a.(index := 1), "b" := b.(index := 0)])
  {
    var t := map["a" := a, "b" := b];
    var swap := [Placement("a", 1), Placement("b", 0)];
    assert Collides(t, swap[0]) by { assert "b" in t; }
    TwoPhaseSwap(t, swap, a, b);
  }

  lemma TwoPhaseSwap(t: Table, swap: seq<Placement>, a: RuleRow, b: RuleRow)
    requires a.configurationId == b.configurationId && a.index == 0 && b.index == 1
    requires t == map["a" := a, "b" := b] && swap == [Placement("a", 1), Placement("b", 0)]
    ensures ApplyWrites(t, Scratch(swap) + swap) == Ok(map["a" := a.(index := 1), "b" := b.(index := 0)])
  {
    SwapTargets(swap);
    SwapReindexed(t, a, b);
    assert Listed(t, swap) && DistinctIds(swap);
    assert UniqueIndices(t) && NonNegativeIndices(t);
    TwoPhaseOutcome(t, swap);
  }

  lemma SwapTargets(swap: seq<Placement>)
    requires swap == [Placement("a", 1), Placement("b", 0)]
    ensures Targets(swap) == map["a" := 1, "b" := 0]
  {
    assert TargetsUpTo(swap, 1) == map["a" := 1];
  }

  lemma SwapReindexed(t: Table, a: RuleRow, b: RuleRow)
    requires a.configurationId == b.configurationId
    requires t == map["a" := a, "b" := b]
    ensures var r := Reindexed(t, map["a" := 1, "b" := 0]);
      r == map["a" := a.(index := 1), "b" := b.(index := 0)] && UniqueIndices(r)
  {
    var r := Reindexed(t, map["a" := 1, "b" := 0]);
    assert r.Keys == {"a", "b"};
    assert r == map["a" := a.(index := 1), "b" := b.(index := 0)];
  }

  // ---------------------------------------------------------------------
  // The validation of updateOrder

  /** `z.string().min(1)` on each id and `z.number().min(0)` on each index. */
  predicate WellFormedPlacements(ws: seq<Placement>)
  {
    forall i | 0 <= i < |ws| :: NonEmpty(ws[i].id) && ws[i].index >= 0
  }

  /** `new Set(input.map((x) => x.id)).size !== input.length` exactly when
      two placements share an id. */
  lemma {:induction false} IdsCardinality(ws: seq<Placement>, k: int)
    requires 0 <= k <= |ws|
    ensures |IdsUpTo(ws, k)| <= k
    ensures |IdsUpTo(ws, k)| == k <==> forall i, j | 0 <= i < j < k :: ws[i].id != ws[j].id
  {
    if k > 0 {
      IdsCardinality(ws, k - 1);
      assert IdsUpTo(ws, k) == IdsUpTo(ws, k - 1) + {ws[k - 1].id};
      if ws[k - 1].id in IdsUpTo(ws, k - 1) {
        var i :| 0 <= i < k - 1 && ws[i].id == ws[k - 1].id;
        assert !(forall i, j | 0 <= i < j < k :: ws[i].id != ws[j].id);
      }
    }
  }

  predicate OwnsConfiguration(owners: map<ConfigurationId, UserId>, user: UserId, cid: ConfigurationId)
  {
    cid in owners && owners[cid] == user
  }

  /** A rule row exists and lies in a configuration of `user`. */
  predicate OwnedRule(t: Table, owners: map<ConfigurationId, UserId>, user: UserId, id: RuleId)
  {
    id in t && OwnsConfiguration(owners, user, t[id].configurationId)
  }

  /** `currentRules`: the listed rules that exist and belong to `user`. */
  function OwnedIds(t: Table, owners: map<ConfigurationId, UserId>, user: UserId, ws: seq<Placement>): set<RuleId>
  {
    set id | id in Ids(ws) && OwnedRule(t, owners, user, id)
  }

  lemma SubsetCard<T>(a: set<T>, b: set<T>)
    requires a <= b
    ensures |a| <= |b|
    decreases a
  {
    if a != {} {
      var x :| x in a;
      SubsetCard(a - {x}, b - {x});
    }
  }

  lemma SubsetSameSize<T>(a: set<T>, b: set<T>)
    requires a <= b && |a| == |b|
    ensures a == b
  {
    if a != b {
      var x :| x in b && x !in a;
      assert |b - {x}| == |b| - 1;
      SubsetCard(a, b - {x});
    }
  }

  /** With distinct ids, `currentRules.length !== input.length` exactly when
      some listed id is not a rule of `user`. */
  lemma OwnedCount(t: Table, owners: map<ConfigurationId, UserId>, user: UserId, ws: seq<Placement>)
    requires DistinctIds(ws)
    ensures |OwnedIds(t, owners, user, ws)| == |ws|
      <==> forall i | 0 <= i < |ws| :: OwnedRule(t, owners, user, ws[i].id)
  {
    IdsCardinality(ws, |ws|);
    var owned := OwnedIds(t, owners, user, ws);
    if |owned| == |ws| {
      SubsetSameSize(owned, Ids(ws));
      forall i | 0 <= i < |ws| ensures OwnedRule(t, owners, user, ws[i].id) {
        assert ws[i].id in Ids(ws);
      }
    }
    if forall i | 0 <= i < |ws| :: OwnedRule(t, owners, user, ws[i].id) {
      assert owned == Ids(ws);
    }
  }

  /** `affectedRules`: the placements whose index differs from the stored
      one; an id without a stored row compares unequal. */
  function Affected(t: Table, ws: seq<Placement>): seq<Placement>
  {
    if ws == [] then []
    else if ws[0].id in t && t[ws[0].id].index == ws[0].index then Affected(t, ws[1..])
    else [ws[0]] + Affected(t, ws[1..])
  }

  /** Exactly the placements that change an index are written. */
  lemma {:induction false} AffectedMembers(t: Table, ws: seq<Placement>, w: Placement)
    ensures w in Affected(t, ws) <==> w in ws && !(w.id in t && t[w.id].index == w.index)
  {
    if ws != [] {
      AffectedMembers(t, ws[1..], w);
      assert ws == [ws[0]] + ws[1..];
    }
  }

  lemma {:induction false} AffectedDistinct(t: Table, ws: seq<Placement>)
    requires DistinctIds(ws)
    ensures DistinctIds(Affected(t, ws))
  {
    if ws != [] {
      var rest := Affected(t, ws[1..]);
      AffectedDistinct(t, ws[1..]);
      if !(ws[0].id in t && t[ws[0].id].index == ws[0].index) {
        var a := [ws[0]] + rest;
        forall i, j | 0 <= i < j < |a| ensures a[i].id != a[j].id {
          if i == 0 {
            AffectedMembers(t, ws[1..], a[j]);
            var q :| 0 <= q < |ws[1..]| && ws[1..][q] == a[j];
            assert ws[q + 1] == a[j];
          } else {
            assert a[i] == rest[i - 1] && a[j] == rest[j - 1];
          }
        }
      }
    }
  }

  /** Dropping the placements that keep their index changes nothing in the
      reordered table. */
  lemma AffectedReindex(t: Table, ws: seq<Placement>)
    requires Listed(t, ws) && DistinctIds(ws)
    ensures Listed(t, Affected(t, ws)) && DistinctIds(Affected(t, ws))
    ensures Reindexed(t, Targets(Affected(t, ws))) == Reindexed(t, Targets(ws))
  {
    var aff := Affected(t, ws);
    AffectedDistinct(t, ws);
    forall p | 0 <= p < |aff| ensures aff[p].id in t {
      assert aff[p] in aff;
      AffectedMembers(t, ws, aff[p]);
    }
    forall id | id in t
      ensures Reindexed(t, Targets(aff))[id] == Reindexed(t, Targets(ws))[id]
    {
      AffectedReindexAt(t, ws, id);
    }
  }

  lemma AffectedReindexAt(t: Table, ws: seq<Placement>, id: RuleId)
    requires Listed(t, ws) && DistinctIds(ws) && id in t
    ensures Reindexed(t, Targets(Affected(t, ws)))[id] == Reindexed(t, Targets(ws))[id]
  {
    var aff := Affected(t, ws);
    AffectedDistinct(t, ws);
    TargetsAt(ws, |ws|);
    TargetsAt(aff, |aff|);
    if id in Ids(aff) {
      var p :| 0 <= p < |aff| && aff[p].id == id;
      assert aff[p] in aff;
      AffectedMembers(t, ws, aff[p]);
      var q :| 0 <= q < |ws| && ws[q] == aff[p];
    } else if id in Ids(ws) {
      var i :| 0 <= i < |ws| && ws[i].id == id;
      AffectedMembers(t, ws, ws[i]);
    }
  }

  /** `updateOrder` as a function of the stored rows: validation, the
      duplicate check, the ownership count, then the transaction of the
      scratch writes followed by the final writes of the affected rules. */
  function UpdateOrderOutcome(t: Table, owners: map<ConfigurationId, UserId>, user: UserId, input: seq<Placement>)
    : Result<Table, RouterError>
  {
    if !WellFormedPlacements(input) then Err(BadRequest)
    else if |Ids(input)| != |input| then Err(BadRequest)
    else if |OwnedIds(t, owners, user, input)| != |input| then Err(BadRequest)
    else
      var affected := Affected(t, input);
      ApplyWrites(t, Scratch(affected) + affected)
  }

  /** What `updateOrder` does, for every input: it refuses malformed input,
      duplicate ids and ids that are not rules of the caller with
      `BAD_REQUEST`; otherwise it commits exactly when the reordered table
      keeps the unique constraint, and the committed table gives each listed
      rule its requested index and leaves every other row as it was. */
  lemma UpdateOrderCharacterised(t: Table, owners: map<ConfigurationId, UserId>, user: UserId, input: seq<Placement>)
    requires UniqueIndices(t) && NonNegativeIndices(t)
    ensures UpdateOrderOutcome(t, owners, user, input) ==
      if !WellFormedPlacements(input) then Err(BadRequest)
      else if !DistinctIds(input) then Err(BadRequest)
      else if exists i | 0 <= i < |input| :: !OwnedRule(t, owners, user, input[i].id) then Err(BadRequest)
      else if UniqueIndices(Reindexed(t, Targets(input))) then Ok(Reindexed(t, Targets(input)))
      else Err(UniqueConstraintFailed)
  {
    IdsCardinality(input, |input|);
    if WellFormedPlacements(input) && DistinctIds(input) {
      OwnedCount(t, owners, user, input);
      if forall i | 0 <= i < |input| :: OwnedRule(t, owners, user, input[i].id) {
        var affected := Affected(t, input);
        AffectedReindex(t, input);
        forall p | 0 <= p < |affected| ensures affected[p].index >= 0 {
          assert affected[p] in affected;
          AffectedMembers(t, input, affected[p]);
        }
        TwoPhaseOutcome(t, affected);
      }
    }
  }

  /** A committed reorder keeps the stored invariant. */
  lemma UpdateOrderKeepsInvariant(t: Table, owners: map<ConfigurationId, UserId>, user: UserId, input: seq<Placement>)
    requires UniqueIndices(t) && NonNegativeIndices(t)
    requires UpdateOrderOutcome(t, owners, user, input).Ok?
    ensures var t' := UpdateOrderOutcome(t, owners, user, input).value;
      && UniqueIndices(t') && NonNegativeIndices(t') && t'.Keys == t.Keys
      && forall id | id in t :: t'[id] == t[id].(index := t'[id].index)
  {
    UpdateOrderCharacterised(t, owners, user, input);
    TargetsAt(input, |input|);
    var t' := Reindexed(t, Targets(input));
    forall id | id in t' ensures t'[id].index >= 0 {
      if id in Targets(input) {
        var i :| 0 <= i < |input| && input[i].id == id;
      }
    }
  }

  // ---------------------------------------------------------------------
  // Index allocation of create

  /** The indices the rules of configuration `cid` hold. */
  function ConfigurationIndices(t: Table, cid: ConfigurationId): set<int>
  {
    set id | id in t && t[id].configurationId == cid :: t[id].index
  }

  /** `largestIndex ? largestIndex.index + 1 : 0`: 0 for a configuration
      without rules, otherwise one more than the largest index, so larger
      than every index of the configuration. */
  ghost function NextIndex(t: Table, cid: ConfigurationId): (r: int)
    ensures forall id | id in t && t[id].configurationId == cid :: t[id].index < r
    ensures ConfigurationIndices(t, cid) == {} ==> r == 0
    ensures ConfigurationIndices(t, cid) != {} ==> r - 1 in ConfigurationIndices(t, cid)
  {
    var s := ConfigurationIndices(t, cid);
    assert forall id | id in t && t[id].configurationId == cid :: t[id].index in s;
    if s == {} then 0 else MaxOf(s) + 1
  }

  /** The query ordered by descending index that reads the largest index
      of a configuration. */
  method LargestIndex(t: Table, cid: ConfigurationId) returns (index: int)
    ensures index == NextIndex(t, cid)
  {
    var indices := ConfigurationIndices(t, cid);
    if indices == {} {
      return 0;
    }
    ghost var top := MaxOf(indices);
    var largest :| largest in indices && forall x | x in indices :: x <= largest;
    assert largest <= top && top <= largest;
    return largest + 1;
  }

  /** A new rule given the next index of its configuration keeps the invariant. */
  lemma AppendKeepsInvariant(t: Table, id: RuleId, row: RuleRow)
    requires UniqueIndices(t) && NonNegativeIndices(t) && id !in t
    requires row.index == NextIndex(t, row.configurationId)
    ensures UniqueIndices(t[id := row]) && NonNegativeIndices(t[id := row])
  {
    if ConfigurationIndices(t, row.configurationId) != {} {
      var o :| o in t && t[o].configurationId == row.configurationId && t[o].index == row.index - 1;
    }
  }

  /** `$transaction`: the writes run one by one on a copy of the table;
      the first write that names no row or breaks the unique constraint
      aborts the whole transaction, and otherwise the copy is the result. */
  method RunTransaction(t: Table, writes: seq<Placement>) returns (r: Result<Table, RouterError>)
    ensures r == ApplyWrites(t, writes)
  {
    var copy := t;
    var i := 0;
    while i < |writes|
      invariant 0 <= i <= |writes|
      invariant ApplyWrites(t, writes) == ApplyWrites(copy, writes[i..])
    {
      var w := writes[i];
      assert writes[i..][1..] == writes[i + 1..];
      if w.id !in copy {
        return Err(RecordNotFound);
      }
      if Collides(copy, w) {
        return Err(UniqueConstraintFailed);
      }
      copy := copy[w.id := copy[w.id].(index := w.index)];
      i := i + 1;
    }
    assert writes[i..] == [];
    return Ok(copy);
  }

  // ---------------------------------------------------------------------
  // The stored rows and the handlers

  predicate OwnsTheme(themes: map<ThemeId, UserId>, user: UserId, tid: ThemeId)
  {
    tid in themes && themes[tid] == user
  }

  /** The row `update` writes: the trimmed name, the flag and the theme. */
  function Edited(row: RuleRow, name: string, enabled: bool, themeId: ThemeId): RuleRow
  {
    row.(name := Trim(name), enabled := enabled, themeId := themeId)
  }

  class RuleStore {
    /** The owner of each configuration. */
    var configurations: map<ConfigurationId, UserId>
    /** The owner of each theme. */
    var themes: map<ThemeId, UserId>
    var rules: Table
    /** The database default of a new rule's `enabled` column. */
    const newRuleEnabled: bool

    predicate Valid()
      reads this
    {
      UniqueIndices(rules) && NonNegativeIndices(rules)
      && forall id | id in rules :: rules[id].configurationId in configurations && rules[id].themeId in themes
    }

    constructor (configurations: map<ConfigurationId, UserId>, themes: map<ThemeId, UserId>, newRuleEnabled: bool)
      ensures Valid() && rules == map[]
      ensures this.configurations == configurations && this.themes == themes
      ensures this.newRuleEnabled == newRuleEnabled
    {
      this.configurations := configurations;
      this.themes := themes;
      this.rules := map[];
      this.newRuleEnabled := newRuleEnabled;
    }

    /** `getAll`: the rules of a configuration of the caller. */
    function GetAll(user: UserId, cid: ConfigurationId): (r: Result<Table, RouterError>)
      reads this
      ensures r.Err? <==> !NonEmpty(cid)
      ensures r.Ok? ==> forall id :: id in r.value <==>
        id in rules && rules[id].configurationId == cid && OwnsConfiguration(configurations, user, cid)
      ensures r.Ok? ==> forall id | id in r.value :: r.value[id] == rules[id]
    {
      if !NonEmpty(cid) then Err(BadRequest)
      else Ok(map id | id in rules && rules[id].configurationId == cid && OwnsConfiguration(configurations, user, cid) :: rules[id])
    }

    /** `getById`: the rule if it is one of the caller's, else `null`. */
    function GetById(user: UserId, id: RuleId): (r: Result<Option<RuleRow>, RouterError>)
      reads this
      ensures r.Err? <==> !NonEmpty(id)
      ensures r.Ok? ==> (r.value.Some? <==> OwnedRule(rules, configurations, user, id))
      ensures r.Ok? && r.value.Some? ==> r.value.value == rules[id]
    {
      if !NonEmpty(id) then Err(BadRequest)
      else if OwnedRule(rules, configurations, user, id) then Ok(Some(rules[id]))
      else Ok(None)
    }

    /** `create`: the new rule gets the id `freshId`, the trimmed name, the
        default condition and the next index of its configuration. */
    method Create(user: UserId, configurationId: ConfigurationId, name: string, themeId: ThemeId, freshId: RuleId)
      returns (r: Result<RuleId, RouterError>)
      requires Valid() && freshId !in rules
      modifies this`rules
      ensures Valid()
      ensures !NonEmpty(configurationId) || !NonEmpty(Trim(name)) || !NonEmpty(themeId) ==> r == Err(BadRequest)
      ensures NonEmpty(configurationId) && NonEmpty(Trim(name)) && NonEmpty(themeId) ==>
        r == if !OwnsConfiguration(configurations, user, configurationId) then Err(Unauthorized)
             else if !OwnsTheme(themes, user, themeId) then Err(Unauthorized)
             else Ok(freshId)
      ensures r.Err? ==> rules == old(rules)
      ensures r.Ok? ==> rules == old(rules)[freshId := RuleRow(configurationId, Trim(name), newRuleEnabled,
        NextIndex(old(rules), configurationId), DefaultCondition, themeId, None)]
    {
      if !NonEmpty(configurationId) || !NonEmpty(Trim(name)) || !NonEmpty(themeId) {
        return Err(BadRequest);
      }
      if !OwnsConfiguration(configurations, user, configurationId) {
        return Err(Unauthorized);
      }
      if !OwnsTheme(themes, user, themeId) {
        return Err(Unauthorized);
      }
      var index := LargestIndex(rules, configurationId);
      var row := RuleRow(configurationId, Trim(name), newRuleEnabled, index, DefaultCondition, themeId, None);
      AppendKeepsInvariant(rules, freshId, row);
      var updated := rules[freshId := row];
      assert forall id | id in updated :: updated[id].configurationId in configurations && updated[id].themeId in themes;
      rules := updated;
      return Ok(freshId);
    }

    /** `update`: the theme must be the caller's; the rule must be one of
        the caller's, else the update finds no row. */
    method Update(user: UserId, id: RuleId, name: string, enabled: bool, themeId: ThemeId)
      returns (r: Result<(), RouterError>)
      requires Valid()
      modifies this`rules
      ensures Valid()
      ensures r == if !NonEmpty(id) || !NonEmpty(Trim(name)) || !NonEmpty(themeId) then Err(BadRequest)
                   else if !OwnsTheme(themes, user, themeId) then Err(Unauthorized)
                   else if !OwnedRule(old(rules), configurations, user, id) then Err(RecordNotFound)
                   else Ok(())
      ensures r.Err? ==> rules == old(rules)
      ensures r.Ok? ==> rules == old(rules)[id := Edited(old(rules)[id], name, enabled, themeId)]
    {
      if !NonEmpty(id) || !NonEmpty(Trim(name)) || !NonEmpty(themeId) {
        return Err(BadRequest);
      }
      if !OwnsTheme(themes, user, themeId) {
        return Err(Unauthorized);
      }
      if !OwnedRule(rules, configurations, user, id) {
        return Err(RecordNotFound);
      }
      rules := rules[id := Edited(rules[id], name, enabled, themeId)];
      return Ok(());
    }

    /** `changeName`. */
    method ChangeName(user: UserId, id: RuleId, name: string) returns (r: Result<(), RouterError>)
      requires Valid()
      modifies this`rules
      ensures Valid()
      ensures r == if !NonEmpty(id) || !NonEmpty(Trim(name)) then Err(BadRequest)
                   else if !OwnedRule(old(rules), configurations, user, id) then Err(RecordNotFound)
                   else Ok(())
      ensures r.Err? ==> rules == old(rules)
      ensures r.Ok? ==> rules == old(rules)[id := old(rules)[id].(name := Trim(name))]
    {
      if !NonEmpty(id) || !NonEmpty(Trim(name)) {
        return Err(BadRequest);
      }
      if !OwnedRule(rules, configurations, user, id) {
        return Err(RecordNotFound);
      }
      rules := rules[id := rules[id].(name := Trim(name))];
      return Ok(());
    }

    /** `changeTheme`: the theme must be the caller's. */
    method ChangeTheme(user: UserId, id: RuleId, themeId: ThemeId) returns (r: Result<(), RouterError>)
      requires Valid()
      modifies this`rules
      ensures Valid()
      ensures r == if !NonEmpty(id) || !NonEmpty(themeId) then Err(BadRequest)
                   else if !OwnsTheme(themes, user, themeId) then Err(Unauthorized)
                   else if !OwnedRule(old(rules), configurations, user, id) then Err(RecordNotFound)
                   else Ok(())
      ensures r.Err? ==> rules == old(rules)
      ensures r.Ok? ==> rules == old(rules)[id := old(rules)[id].(themeId := themeId)]
    {
      if !NonEmpty(id) || !NonEmpty(themeId) {
        return Err(BadRequest);
      }
      if !OwnsTheme(themes, user, themeId) {
        return Err(Unauthorized);
      }
      if !OwnedRule(rules, configurations, user, id) {
        return Err(RecordNotFound);
      }
      rules := rules[id := rules[id].(themeId := themeId)];
      return Ok(());
    }

    /** `updateCondition`: the condition must pass `conditionSchema`. */
    method UpdateCondition(user: UserId, id: RuleId, condition: Condition) returns (r: Result<(), RouterError>)
      requires Valid()
      modifies this`rules
      ensures Valid()
      ensures r == if !NonEmpty(id) || !ValidCondition(condition) then Err(BadRequest)
                   else if !OwnedRule(old(rules), configurations, user, id) then Err(RecordNotFound)
                   else Ok(())
      ensures r.Err? ==> rules == old(rules)
      ensures r.Ok? ==> rules == old(rules)[id := old(rules)[id].(condition := condition)]
    {
      if !NonEmpty(id) || !ValidCondition(condition) {
        return Err(BadRequest);
      }
      if !OwnedRule(rules, configurations, user, id) {
        return Err(RecordNotFound);
      }
      rules := rules[id := rules[id].(condition := condition)];
      return Ok(());
    }

    /** `delete`. */
    method Delete(user: UserId, id: RuleId) returns (r: Result<(), RouterError>)
      requires Valid()
      modifies this`rules
      ensures Valid()
      ensures r == if !NonEmpty(id) then Err(BadRequest)
                   else if !OwnedRule(old(rules), configurations, user, id) then Err(RecordNotFound)
                   else Ok(())
      ensures r.Err? ==> rules == old(rules)
      ensures r.Ok? ==> rules == old(rules) - {id}
    {
      if !NonEmpty(id) {
        return Err(BadRequest);
      }
      if !OwnedRule(rules, configurations, user, id) {
        return Err(RecordNotFound);
      }
      rules := rules - {id};
      return Ok(());
    }

    /** `updateOrder`: the checks, then the transaction of the scratch
        writes and the final writes, which replaces the table only once
        every write has succeeded. */
    method UpdateOrder(user: UserId, input: seq<Placement>) returns (r: Result<(), RouterError>)
      requires Valid()
      modifies this`rules
      ensures Valid()
      ensures var outcome := UpdateOrderOutcome(old(rules), configurations, user, input);
        && (r.Ok? <==> outcome.Ok?)
        && (outcome.Ok? ==> rules == outcome.value)
        && (outcome.Err? ==> r == Err(outcome.error) && rules == old(rules))
    {
      if !WellFormedPlacements(input) {
        return Err(BadRequest);
      }
      if |Ids(input)| != |input| {
        return Err(BadRequest);
      }
      if |OwnedIds(rules, configurations, user, input)| != |input| {
        return Err(BadRequest);
      }
      var affected := Affected(rules, input);
      var outcome := RunTransaction(rules, Scratch(affected) + affected);
      if outcome.Err? {
        return Err(outcome.error);
      }
      UpdateOrderKeepsInvariant(rules, configurations, user, input);
      rules := outcome.value;
      return Ok(());
    }
  }
}
