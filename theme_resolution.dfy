/**
 * Effective-theme resolution of `src/components/client/ThemeProvider.tsx`:
 * `getFieldsToApply` keeps the enabled rules whose condition holds, keeps
 * only the enabled fields of their themes, sorts them by descending index
 * and folds their field records, so that the lowest index wins; the
 * provider then layers defaults, the enabled base-theme fields, the user
 * rules and the `newsTicker` rules.
 */
module ThemeResolution {
  import opened Wrappers
  import opened Conditions
  import opened Theme

  /** A rule as a display instance receives it, with its theme's stored
      fields. The condition is taken as an already parsed tree. */
  datatype Rule = Rule(
    enabled: bool,
    index: int,
    condition: Condition,
    themeFields: seq<RawField>,
    internalGroup: Option<string>)

  /** What resolution reads of an instance's configuration. */
  datatype Configuration = Configuration(baseThemeFields: seq<RawField>, rules: seq<Rule>)

  /** An active rule reduced to its index and its validated enabled fields. */
  datatype ActiveRule = ActiveRule(index: int, fields: seq<ThemeField>)

  const NewsTickerGroup: string := "newsTicker"

  // ---------------------------------------------------------------------
  // The steps of getFieldsToApply

  /** `rules.filter((rule) => rule.enabled)`. */
  function EnabledRules(rules: seq<Rule>): seq<Rule>
  {
    if rules == [] then []
    else if rules[0].enabled then [rules[0]] + EnabledRules(rules[1..])
    else EnabledRules(rules[1..])
  }

  /** `enabledRules.filter((rule) => isConditionTrue(rule.condition, circumstances))`. */
  function ActiveRules(rules: seq<Rule>, circ: Circumstances): seq<Rule>
  {
    if rules == [] then []
    else if IsConditionTrue(rules[0].condition, circ) then [rules[0]] + ActiveRules(rules[1..], circ)
    else ActiveRules(rules[1..], circ)
  }

  /** The rules that survive both filters are exactly the contributing ones. */
  lemma {:induction false} ContributingMembers(rules: seq<Rule>, circ: Circumstances, x: Rule)
    ensures x in ContributingRules(rules, circ) <==> x in rules && Contributes(x, circ)
  {
    assert ContributingRules(rules, circ) == ActiveRules(EnabledRules(rules), circ);
    EnabledMembers(rules, x);
    ActiveMembers(EnabledRules(rules), circ, x);
  }

  lemma {:induction false} EnabledMembers(rules: seq<Rule>, x: Rule)
    ensures x in EnabledRules(rules) <==> x in rules && x.enabled
  {
    if rules != [] {
      EnabledMembers(rules[1..], x);
      assert rules == [rules[0]] + rules[1..];
    }
  }

  lemma {:induction false} ActiveMembers(rules: seq<Rule>, circ: Circumstances, x: Rule)
    ensures x in ActiveRules(rules, circ) <==> x in rules && IsConditionTrue(x.condition, circ)
  {
    if rules != [] {
      ActiveMembers(rules[1..], circ, x);
      assert rules == [rules[0]] + rules[1..];
    }
  }

  /** A rule applies at these circumstances. */
  predicate Contributes(r: Rule, circ: Circumstances)
  {
    r.enabled && IsConditionTrue(r.condition, circ)
  }

  /** The enabled fields of a rule whose stored fields validate. */
  function EnabledFieldsOf(r: Rule): seq<ThemeField>
    requires ValidateThemeFieldsArray(r.themeFields).Ok?
  {
    OnlyEnabledFields(ValidateThemeFieldsArray(r.themeFields).value)
  }

  /** The record a contributing rule overlays. */
  function RuleRecord(r: Rule): FieldsRecord
    requires ValidateThemeFieldsArray(r.themeFields).Ok?
  {
    ThemeFieldsToPartialRecord(EnabledFieldsOf(r))
  }

  /** The `map` that validates each active rule's fields and keeps the
      enabled ones; validation throws on the first bad rule. */
  function OnlyEnabledOfActive(rules: seq<Rule>): (r: Result<seq<ActiveRule>, ValidationError>)
    ensures r.Ok? <==> forall i | 0 <= i < |rules| :: ValidateThemeFieldsArray(rules[i].themeFields).Ok?
    ensures r.Ok? ==> (|r.value| == |rules| && forall i | 0 <= i < |rules| ::
                         r.value[i] == ActiveRule(rules[i].index, EnabledFieldsOf(rules[i])))
  {
    if rules == [] then Ok([])
    else match ValidateThemeFieldsArray(rules[0].themeFields)
      case Err(e) => Err(e)
      case Ok(fs) =>
        match OnlyEnabledOfActive(rules[1..])
        case Err(e) => Err(e)
        case Ok(rest) => Ok([ActiveRule(rules[0].index, OnlyEnabledFields(fs))] + rest)
  }

  predicate SortedByIndexDesc(s: seq<ActiveRule>)
  {
    forall i, j | 0 <= i < j < |s| :: s[i].index >= s[j].index
  }

  /** Inserts before the first element whose index is not larger. */
  function InsertByIndexDesc(x: ActiveRule, s: seq<ActiveRule>): seq<ActiveRule>
  {
    if s == [] || x.index >= s[0].index then [x] + s
    else [s[0]] + InsertByIndexDesc(x, s[1..])
  }

  /** `sort((a, b) => b.index - a.index)`, as a stable insertion sort. */
  function SortByIndexDesc(s: seq<ActiveRule>): seq<ActiveRule>
  {
    if s == [] then [] else InsertByIndexDesc(s[0], SortByIndexDesc(s[1..]))
  }

  lemma {:induction false} InsertMultiset(x: ActiveRule, s: seq<ActiveRule>)
    ensures multiset(InsertByIndexDesc(x, s)) == multiset(s) + multiset{x}
  {
    if s != [] && x.index < s[0].index {
      InsertMultiset(x, s[1..]);
      assert s == [s[0]] + s[1..];
    }
  }

  lemma {:induction false} InsertSorted(x: ActiveRule, s: seq<ActiveRule>)
    requires SortedByIndexDesc(s)
    ensures SortedByIndexDesc(InsertByIndexDesc(x, s))
    ensures multiset(InsertByIndexDesc(x, s)) == multiset(s) + multiset{x}
  {
    InsertMultiset(x, s);
    if s != [] && x.index < s[0].index {
      var tail := s[1..];
      var rest := InsertByIndexDesc(x, tail);
      InsertSorted(x, tail);
      forall k | 0 <= k < |rest| ensures s[0].index >= rest[k].index {
        assert rest[k] in multiset(rest);
        if rest[k] != x {
          assert rest[k] in multiset(tail);
          var m :| 0 <= m < |tail| && tail[m] == rest[k];
          assert s[m + 1] == rest[k];
        }
      }
      assert InsertByIndexDesc(x, s) == [s[0]] + rest;
    }
  }

  /** The sort yields a descending permutation of its input. */
  lemma {:induction false} SortSorted(s: seq<ActiveRule>)
    ensures SortedByIndexDesc(SortByIndexDesc(s))
    ensures multiset(SortByIndexDesc(s)) == multiset(s)
  {
    if s != [] {
      SortSorted(s[1..]);
      InsertSorted(s[0], SortByIndexDesc(s[1..]));
      assert s == [s[0]] + s[1..];
    }
  }

  /** `activeRulesSorted.map((rule) => themeFieldsToPartialRecord(rule.theme.fields))`. */
  function Records(s: seq<ActiveRule>): (r: seq<FieldsRecord>)
    ensures |r| == |s| && forall i | 0 <= i < |s| :: r[i] == ThemeFieldsToPartialRecord(s[i].fields)
  {
    if s == [] then [] else [ThemeFieldsToPartialRecord(s[0].fields)] + Records(s[1..])
  }

  /** `reduce((acc, val) => ({ ...acc, ...val }), {})`. */
  function MergeRecords(rs: seq<FieldsRecord>): FieldsRecord
  {
    if rs == [] then map[] else MergeRecords(rs[..|rs| - 1]) + rs[|rs| - 1]
  }

  /** The rules that pass both filters. */
  function ContributingRules(rules: seq<Rule>, circ: Circumstances): seq<Rule>
  {
    ActiveRules(EnabledRules(rules), circ)
  }

  /** `getFieldsToApply`. */
  function GetFieldsToApply(rules: seq<Rule>, circ: Circumstances): Result<FieldsRecord, ValidationError>
  {
    match OnlyEnabledOfActive(ContributingRules(rules, circ))
    case Err(e) => Err(e)
    case Ok(onlyEnabled) => Ok(MergeRecords(Records(SortByIndexDesc(onlyEnabled))))
  }

  // ---------------------------------------------------------------------
  // The fold: later records overwrite earlier ones

  /** `i` is the last record that holds `n`. */
  predicate IsLastHolding(rs: seq<FieldsRecord>, i: int, n: FieldName)
  {
    0 <= i < |rs| && n in rs[i] && forall j | i < j < |rs| :: n !in rs[j]
  }

  lemma {:induction false} MergeLastWins(rs: seq<FieldsRecord>, n: FieldName)
    ensures n in MergeRecords(rs) <==> exists i | 0 <= i < |rs| :: n in rs[i]
    ensures n in MergeRecords(rs) ==>
      exists i :: IsLastHolding(rs, i, n) && MergeRecords(rs)[n] == rs[i][n]
  {
    if rs != [] {
      var init, last := rs[..|rs| - 1], rs[|rs| - 1];
      assert MergeRecords(rs) == MergeRecords(init) + last;
      MergeLastWins(init, n);
      if n in last {
        assert MergeRecords(rs)[n] == last[n];
        assert IsLastHolding(rs, |rs| - 1, n);
      } else {
        assert forall i | 0 <= i < |init| :: rs[i] == init[i];
        if n in MergeRecords(init) {
          var i :| IsLastHolding(init, i, n) && MergeRecords(init)[n] == init[i][n];
          assert MergeRecords(rs)[n] == MergeRecords(init)[n];
          assert IsLastHolding(rs, i, n);
        } else {
          assert n !in MergeRecords(rs);
          forall i | 0 <= i < |rs| ensures n !in rs[i] {
            if i < |init| { assert rs[i] == init[i]; }
          }
        }
      }
    }
  }

  // ---------------------------------------------------------------------
  // Precedence among the rules of one group

  /** Rule `r` contributes a value for `n`. */
  predicate SetsField(r: Rule, circ: Circumstances, n: FieldName)
  {
    Contributes(r, circ) && ValidateThemeFieldsArray(r.themeFields).Ok? && n in RuleRecord(r)
  }

  /** Resolution of a group fails exactly when some contributing rule has
      stored fields that do not validate; disabled and inactive rules are
      never validated. */
  lemma FieldsToApplyFailsIff(rules: seq<Rule>, circ: Circumstances)
    ensures GetFieldsToApply(rules, circ).Err?
        <==> exists i | 0 <= i < |rules| ::
               Contributes(rules[i], circ) && ValidateThemeFieldsArray(rules[i].themeFields).Err?
  {
    var active := ContributingRules(rules, circ);
    if GetFieldsToApply(rules, circ).Err? {
      var k :| 0 <= k < |active| && ValidateThemeFieldsArray(active[k].themeFields).Err?;
      ContributingMembers(rules, circ, active[k]);
      var i :| 0 <= i < |rules| && rules[i] == active[k];
    }
    if exists i | 0 <= i < |rules| :: Contributes(rules[i], circ) && ValidateThemeFieldsArray(rules[i].themeFields).Err? {
      var i :| 0 <= i < |rules| && Contributes(rules[i], circ) && ValidateThemeFieldsArray(rules[i].themeFields).Err?;
      ContributingMembers(rules, circ, rules[i]);
      var k :| 0 <= k < |active| && active[k] == rules[i];
    }
  }

  /** Entry `k` of `sorted` holds a value for `n`. */
  predicate HoldsAt(sorted: seq<ActiveRule>, k: int, n: FieldName)
  {
    0 <= k < |sorted| && n in Records(sorted)[k]
  }

  /** In a descending list, the last record holding `n` has an index not
      larger than that of any entry holding `n`. */
  lemma LastHoldingIsLowest(sorted: seq<ActiveRule>, n: FieldName, k: int)
    requires SortedByIndexDesc(sorted) && IsLastHolding(Records(sorted), k, n)
    ensures forall k' | HoldsAt(sorted, k', n) :: sorted[k].index <= sorted[k'].index
  {
    assert forall k' | HoldsAt(sorted, k', n) :: k' <= k;
  }

  /** In a descending list, the merged record holds `n` iff some entry does,
      and then its value comes from an entry whose index is not larger than
      that of any entry holding `n`. */
  lemma SortedWinner(sorted: seq<ActiveRule>, n: FieldName)
    requires SortedByIndexDesc(sorted)
    ensures var m := MergeRecords(Records(sorted));
      && (n in m <==> exists k :: HoldsAt(sorted, k, n))
      && (n in m ==>
            exists k :: (HoldsAt(sorted, k, n) && m[n] == Records(sorted)[k][n]
              && forall k' | HoldsAt(sorted, k', n) :: sorted[k].index <= sorted[k'].index))
  {
    var rs := Records(sorted);
    MergeLastWins(rs, n);
    if n in MergeRecords(rs) {
      var k :| IsLastHolding(rs, k, n) && MergeRecords(rs)[n] == rs[k][n];
      LastHoldingIsLowest(sorted, n, k);
      assert HoldsAt(sorted, k, n);
    }
  }

  /** The reduced form of a contributing rule with valid fields. */
  function Reduced(r: Rule): ActiveRule
    requires ValidateThemeFieldsArray(r.themeFields).Ok?
  {
    ActiveRule(r.index, EnabledFieldsOf(r))
  }

  /** The contributing rules, validated, reduced and sorted. */
  function SortedReduced(rules: seq<Rule>, circ: Circumstances): seq<ActiveRule>
    requires OnlyEnabledOfActive(ContributingRules(rules, circ)).Ok?
  {
    SortByIndexDesc(OnlyEnabledOfActive(ContributingRules(rules, circ)).value)
  }

  lemma FieldsToApplyIsMerge(rules: seq<Rule>, circ: Circumstances)
    requires GetFieldsToApply(rules, circ).Ok?
    ensures OnlyEnabledOfActive(ContributingRules(rules, circ)).Ok?
    ensures SortedByIndexDesc(SortedReduced(rules, circ))
    ensures GetFieldsToApply(rules, circ).value == MergeRecords(Records(SortedReduced(rules, circ)))
  {
    SortSorted(OnlyEnabledOfActive(ContributingRules(rules, circ)).value);
  }

  /** Every contributing rule appears, reduced, in the sorted list. */
  lemma RuleInSorted(rules: seq<Rule>, circ: Circumstances, j: int) returns (k: int)
    requires OnlyEnabledOfActive(ContributingRules(rules, circ)).Ok?
    requires 0 <= j < |rules| && Contributes(rules[j], circ)
    ensures ValidateThemeFieldsArray(rules[j].themeFields).Ok?
    ensures 0 <= k < |SortedReduced(rules, circ)| && SortedReduced(rules, circ)[k] == Reduced(rules[j])
  {
    var active := ContributingRules(rules, circ);
    var onlyEnabled := OnlyEnabledOfActive(active).value;
    var sorted := SortByIndexDesc(onlyEnabled);
    SortSorted(onlyEnabled);
    ContributingMembers(rules, circ, rules[j]);
    var a :| 0 <= a < |active| && active[a] == rules[j];
    assert onlyEnabled[a] in multiset(sorted);
    k :| 0 <= k < |sorted| && sorted[k] == onlyEnabled[a];
  }

  /** Every entry of the sorted list is a contributing rule, reduced. */
  lemma SortedFromRule(rules: seq<Rule>, circ: Circumstances, k: int) returns (j: int)
    requires OnlyEnabledOfActive(ContributingRules(rules, circ)).Ok?
    requires 0 <= k < |SortedReduced(rules, circ)|
    ensures 0 <= j < |rules| && Contributes(rules[j], circ) && ValidateThemeFieldsArray(rules[j].themeFields).Ok?
    ensures SortedReduced(rules, circ)[k] == Reduced(rules[j])
  {
    var active := ContributingRules(rules, circ);
    var onlyEnabled := OnlyEnabledOfActive(active).value;
    var sorted := SortByIndexDesc(onlyEnabled);
    SortSorted(onlyEnabled);
    assert sorted[k] in multiset(onlyEnabled);
    var a :| 0 <= a < |onlyEnabled| && onlyEnabled[a] == sorted[k];
    ContributingMembers(rules, circ, active[a]);
    j :| 0 <= j < |rules| && rules[j] == active[a];
  }

  /** Rule `i` sets `n` with an index not larger than any other rule setting `n`. */
  predicate IsLowestSetting(rules: seq<Rule>, circ: Circumstances, n: FieldName, i: int)
  {
    0 <= i < |rules| && SetsField(rules[i], circ, n)
    && forall j | 0 <= j < |rules| && SetsField(rules[j], circ, n) :: rules[i].index <= rules[j].index
  }

  /** A field name is applied iff some contributing rule sets it. */
  lemma LowestIndexPresent(rules: seq<Rule>, circ: Circumstances, n: FieldName)
    requires GetFieldsToApply(rules, circ).Ok?
    ensures n in GetFieldsToApply(rules, circ).value <==> exists i | 0 <= i < |rules| :: SetsField(rules[i], circ, n)
  {
    FieldsToApplyIsMerge(rules, circ);
    var sorted := SortedReduced(rules, circ);
    SortedWinner(sorted, n);
    if n in GetFieldsToApply(rules, circ).value {
      var k :| HoldsAt(sorted, k, n);
      var i := SortedFromRule(rules, circ, k);
      assert SetsField(rules[i], circ, n);
    }
    if exists i | 0 <= i < |rules| :: SetsField(rules[i], circ, n) {
      var i :| 0 <= i < |rules| && SetsField(rules[i], circ, n);
      var k := RuleInSorted(rules, circ, i);
      assert HoldsAt(sorted, k, n);
    }
  }

  /** The applied value of `n` comes from the contributing rule with the
      smallest index among those that set it. */
  lemma LowestIndexWins(rules: seq<Rule>, circ: Circumstances, n: FieldName)
    requires GetFieldsToApply(rules, circ).Ok?
    requires n in GetFieldsToApply(rules, circ).value
    ensures exists i :: (IsLowestSetting(rules, circ, n, i)
      && GetFieldsToApply(rules, circ).value[n] == RuleRecord(rules[i])[n])
  {
    FieldsToApplyIsMerge(rules, circ);
    var sorted := SortedReduced(rules, circ);
    SortedWinner(sorted, n);
    var k :| HoldsAt(sorted, k, n)
      && GetFieldsToApply(rules, circ).value[n] == ThemeFieldsToPartialRecord(sorted[k].fields)[n]
      && forall k' | HoldsAt(sorted, k', n) :: sorted[k].index <= sorted[k'].index;
    var i := SortedFromRule(rules, circ, k);
    forall j | 0 <= j < |rules| && SetsField(rules[j], circ, n)
      ensures rules[i].index <= rules[j].index
    {
      var k' := RuleInSorted(rules, circ, j);
      assert HoldsAt(sorted, k', n);
    }
    assert IsLowestSetting(rules, circ, n, i);
  }

  /** When one contributing rule that sets `n` has a strictly smaller index
      than every other rule setting `n`, its value is the one applied. */
  lemma UniqueLowestIndexWins(rules: seq<Rule>, circ: Circumstances, n: FieldName, w: nat)
    requires GetFieldsToApply(rules, circ).Ok?
    requires w < |rules| && SetsField(rules[w], circ, n)
    requires forall j | 0 <= j < |rules| && j != w && SetsField(rules[j], circ, n) :: rules[w].index < rules[j].index
    ensures n in GetFieldsToApply(rules, circ).value
    ensures GetFieldsToApply(rules, circ).value[n] == RuleRecord(rules[w])[n]
  {
    LowestIndexPresent(rules, circ, n);
    LowestIndexWins(rules, circ, n);
  }

  /** Applied fields are enabled, typed and filed under their own name. */
  lemma {:induction false} AppliedFieldsEnabled(rules: seq<Rule>, circ: Circumstances, n: FieldName)
    requires GetFieldsToApply(rules, circ).Ok?
    requires n in GetFieldsToApply(rules, circ).value
    ensures var f := GetFieldsToApply(rules, circ).value[n];
      f.enabled && f.name == n && WellTyped(f)
  {
    LowestIndexWins(rules, circ, n);
    var rec := GetFieldsToApply(rules, circ).value;
    var i :| 0 <= i < |rules| && SetsField(rules[i], circ, n) && rec[n] == RuleRecord(rules[i])[n];
    var fs := EnabledFieldsOf(rules[i]);
    PartialRecordLastWins(fs);
    var k :| IsLastWithName(fs, k, n) && RuleRecord(rules[i])[n] == fs[k];
    assert fs[k] in fs;
    assert fs[k] in ValidateThemeFieldsArray(rules[i].themeFields).value;
  }

  // ---------------------------------------------------------------------
  // Rules that do not contribute

  lemma {:induction false} EnabledRulesConcat(a: seq<Rule>, b: seq<Rule>)
    ensures EnabledRules(a + b) == EnabledRules(a) + EnabledRules(b)
  {
    if a == [] {
      assert a + b == b;
    } else {
      var rest := a[1..] + b;
      assert a + b == [a[0]] + rest;
      EnabledRulesConcat(a[1..], b);
      if a[0].enabled {
        assert EnabledRules(a + b) == [a[0]] + EnabledRules(rest);
      } else {
        assert EnabledRules(a + b) == EnabledRules(rest);
      }
    }
  }

  lemma {:induction false} ActiveRulesConcat(a: seq<Rule>, b: seq<Rule>, circ: Circumstances)
    ensures ActiveRules(a + b, circ) == ActiveRules(a, circ) + ActiveRules(b, circ)
  {
    if a == [] {
      assert a + b == b;
    } else {
      var rest := a[1..] + b;
      assert a + b == [a[0]] + rest;
      ActiveRulesConcat(a[1..], b, circ);
      if IsConditionTrue(a[0].condition, circ) {
        assert ActiveRules(a + b, circ) == [a[0]] + ActiveRules(rest, circ);
      } else {
        assert ActiveRules(a + b, circ) == ActiveRules(rest, circ);
      }
    }
  }

  /** Removing a disabled rule, or one whose condition is false, changes
      nothing: such a rule contributes no field and cannot fail validation. */
  lemma NonContributingRuleIgnored(rules: seq<Rule>, i: nat, circ: Circumstances)
    requires i < |rules| && !Contributes(rules[i], circ)
    ensures GetFieldsToApply(rules[..i] + rules[i + 1..], circ) == GetFieldsToApply(rules, circ)
  {
    ContributingWithout(rules, i, circ);
  }

  lemma ContributingWithout(rules: seq<Rule>, i: nat, circ: Circumstances)
    requires i < |rules| && !Contributes(rules[i], circ)
    ensures ContributingRules(rules[..i] + rules[i + 1..], circ) == ContributingRules(rules, circ)
  {
    var a, x, b := rules[..i], rules[i], rules[i + 1..];
    assert rules == a + [x] + b;
    EnabledRulesConcat(a + [x], b);
    EnabledRulesConcat(a, [x]);
    EnabledRulesConcat(a, b);
    var ea, eb := EnabledRules(a), EnabledRules(b);
    if x.enabled {
      assert EnabledRules(rules) == ea + [x] + eb;
      ActiveRulesConcat(ea + [x], eb, circ);
      ActiveRulesConcat(ea, [x], circ);
      ActiveRulesConcat(ea, eb, circ);
      assert ActiveRules([x], circ) == [];
    } else {
      assert EnabledRules([x]) == [];
      assert EnabledRules(rules) == ea + eb;
      assert EnabledRules(a + b) == ea + eb;
    }
  }

  // ---------------------------------------------------------------------
  // The provider: layering the groups

  /** `rules.filter((rule) => rule.internalGroup === group)`. */
  function RulesInGroup(rules: seq<Rule>, group: Option<string>): seq<Rule>
  {
    if rules == [] then []
    else if rules[0].internalGroup == group then [rules[0]] + RulesInGroup(rules[1..], group)
    else RulesInGroup(rules[1..], group)
  }

  lemma {:induction false} GroupMembers(rules: seq<Rule>, group: Option<string>, x: Rule)
    ensures x in RulesInGroup(rules, group) <==> x in rules && x.internalGroup == group
  {
    if rules != [] {
      GroupMembers(rules[1..], group, x);
      assert rules == [rules[0]] + rules[1..];
    }
  }

  /** `themeFieldsRecordToNameValue({...defaultThemeFields,
      ...baseThemeEnabledFields, ...userThemeFields, ...newsTickerThemeFields})`;
      any validation failure is thrown. */
  function ResolveTheme(config: Configuration, circ: Circumstances): Result<NameValue, ValidationError>
  {
    match ValidateThemeFieldsArray(config.baseThemeFields)
    case Err(e) => Err(e)
    case Ok(base) =>
      var baseEnabled := ThemeFieldsToPartialRecord(OnlyEnabledFields(base));
      match GetFieldsToApply(RulesInGroup(config.rules, None), circ)
      case Err(e) => Err(e)
      case Ok(user) =>
        match GetFieldsToApply(RulesInGroup(config.rules, Some(NewsTickerGroup)), circ)
        case Err(e) => Err(e)
        case Ok(ticker) =>
          Ok(ThemeFieldsRecordToNameValue(DefaultThemeFields() + baseEnabled + user + ticker))
  }

  /** The enabled base-theme record, when the base theme validates. */
  function BaseRecord(config: Configuration): FieldsRecord
    requires ValidateThemeFieldsArray(config.baseThemeFields).Ok?
  {
    ThemeFieldsToPartialRecord(OnlyEnabledFields(ValidateThemeFieldsArray(config.baseThemeFields).value))
  }

  /** Some contributing rule of `group` sets `n`. */
  predicate GroupSets(config: Configuration, group: Option<string>, circ: Circumstances, n: FieldName)
  {
    exists i | 0 <= i < |config.rules| ::
      config.rules[i].internalGroup == group && SetsField(config.rules[i], circ, n)
  }

  lemma GroupSetsIff(config: Configuration, group: Option<string>, circ: Circumstances, n: FieldName)
    requires GetFieldsToApply(RulesInGroup(config.rules, group), circ).Ok?
    ensures n in GetFieldsToApply(RulesInGroup(config.rules, group), circ).value
        <==> GroupSets(config, group, circ, n)
  {
    var g := RulesInGroup(config.rules, group);
    LowestIndexPresent(g, circ, n);
    if GroupSets(config, group, circ, n) {
      var i :| 0 <= i < |config.rules| && config.rules[i].internalGroup == group && SetsField(config.rules[i], circ, n);
      var k := InGroupAt(config.rules, group, i);
    }
    if n in GetFieldsToApply(g, circ).value {
      var k :| 0 <= k < |g| && SetsField(g[k], circ, n);
      var i := GroupEntryAt(config.rules, group, k);
    }
  }

  lemma InGroupAt(rules: seq<Rule>, group: Option<string>, i: int) returns (k: int)
    requires 0 <= i < |rules| && rules[i].internalGroup == group
    ensures 0 <= k < |RulesInGroup(rules, group)| && RulesInGroup(rules, group)[k] == rules[i]
  {
    GroupMembers(rules, group, rules[i]);
    k :| 0 <= k < |RulesInGroup(rules, group)| && RulesInGroup(rules, group)[k] == rules[i];
  }

  lemma GroupEntryAt(rules: seq<Rule>, group: Option<string>, k: int) returns (i: int)
    requires 0 <= k < |RulesInGroup(rules, group)|
    ensures 0 <= i < |rules| && rules[i] == RulesInGroup(rules, group)[k] && rules[i].internalGroup == group
  {
    GroupMembers(rules, group, RulesInGroup(rules, group)[k]);
    i :| 0 <= i < |rules| && rules[i] == RulesInGroup(rules, group)[k];
  }

  /** The user rules: those outside any internal group. */
  function UserRules(config: Configuration): seq<Rule>
  {
    RulesInGroup(config.rules, None)
  }

  /** The rules of the internal `newsTicker` group. */
  function TickerRules(config: Configuration): seq<Rule>
  {
    RulesInGroup(config.rules, Some(NewsTickerGroup))
  }

  /** The four layers, when every one of them validates. */
  function Layered(config: Configuration, circ: Circumstances): FieldsRecord
    requires ValidateThemeFieldsArray(config.baseThemeFields).Ok?
    requires GetFieldsToApply(UserRules(config), circ).Ok?
    requires GetFieldsToApply(TickerRules(config), circ).Ok?
  {
    DefaultThemeFields() + BaseRecord(config)
      + GetFieldsToApply(UserRules(config), circ).value
      + GetFieldsToApply(TickerRules(config), circ).value
  }

  /** Resolution succeeds exactly when the base theme and both groups
      validate, and its result is the layered record without the flags. */
  lemma ResolveThemeLayers(config: Configuration, circ: Circumstances)
    ensures ResolveTheme(config, circ).Ok? <==>
      ValidateThemeFieldsArray(config.baseThemeFields).Ok?
      && GetFieldsToApply(UserRules(config), circ).Ok?
      && GetFieldsToApply(TickerRules(config), circ).Ok?
    ensures ResolveTheme(config, circ).Ok? ==>
      ResolveTheme(config, circ).value == ThemeFieldsRecordToNameValue(Layered(config, circ))
  {
  }

  /** The resolved theme names every field, each with a value of its type. */
  lemma ResolvedComplete(config: Configuration, circ: Circumstances, n: FieldName)
    requires ResolveTheme(config, circ).Ok?
    ensures ResolveTheme(config, circ).value.Keys == AllNames
    ensures HasValueType(n, ResolveTheme(config, circ).value[n])
  {
    ResolveThemeLayers(config, circ);
    var base := ValidateThemeFieldsArray(config.baseThemeFields).value;
    var user := GetFieldsToApply(UserRules(config), circ).value;
    var ticker := GetFieldsToApply(TickerRules(config), circ).value;
    var merged := Layered(config, circ);
    forall m | m in merged ensures m in AllNames {
      assert m == HideClock || m == ClockColor || m == ClockSize;
    }
    assert merged.Keys == AllNames;
    if n in ticker {
      AppliedFieldsEnabled(TickerRules(config), circ, n);
    } else if n in user {
      AppliedFieldsEnabled(UserRules(config), circ, n);
    } else if n in BaseRecord(config) {
      OnlyEnabledWellTyped(base);
      PartialRecordWellTyped(OnlyEnabledFields(base));
      PartialRecordNamesMatch(OnlyEnabledFields(base));
    }
    assert HasValueType(n, merged[n].value);
  }

  /** Each resolved value comes from the highest layer that sets it:
      news-ticker rules over user rules over enabled base fields over the
      built-in default. */
  lemma ResolvedLayers(config: Configuration, circ: Circumstances, n: FieldName)
    requires ResolveTheme(config, circ).Ok?
    ensures ValidateThemeFieldsArray(config.baseThemeFields).Ok?
    ensures GetFieldsToApply(UserRules(config), circ).Ok? && GetFieldsToApply(TickerRules(config), circ).Ok?
    ensures var theme := ResolveTheme(config, circ).value;
      var user := GetFieldsToApply(UserRules(config), circ).value;
      var ticker := GetFieldsToApply(TickerRules(config), circ).value;
      && n in theme
      && (GroupSets(config, Some(NewsTickerGroup), circ, n) ==>
            n in ticker && theme[n] == ticker[n].value)
      && (!GroupSets(config, Some(NewsTickerGroup), circ, n) && GroupSets(config, None, circ, n) ==>
            n in user && theme[n] == user[n].value)
      && (!GroupSets(config, Some(NewsTickerGroup), circ, n) && !GroupSets(config, None, circ, n) ==>
            theme[n] == if n in BaseRecord(config) then BaseRecord(config)[n].value else DefaultValue(n))
  {
    ResolveThemeLayers(config, circ);
    GroupSetsIff(config, None, circ, n);
    GroupSetsIff(config, Some(NewsTickerGroup), circ, n);
    assert n in DefaultThemeFields();
  }

  /** A stored theme that enables one `clockColor` value. */
  function ColourTheme(v: string): seq<RawField>
  {
    [RawField("clockColor", StringValue(v), true)]
  }

  /** The example of precedence: base `#000000`, two active rules with
      indices 0 (`#fff`) and 1 (`#00f`); the rule with index 0 wins. */
  lemma PrecedenceExample(circ: Circumstances)
    ensures var config := Configuration(ColourTheme("#000000"), [
        Rule(true, 0, DefaultCondition, ColourTheme("#fff"), None),
        Rule(true, 1, DefaultCondition, ColourTheme("#00f"), None)]);
      ResolveTheme(config, circ).Ok? && ResolveTheme(config, circ).value[ClockColor] == StringValue("#fff")
  {
    var r0 := Rule(true, 0, DefaultCondition, ColourTheme("#fff"), None);
    var r1 := Rule(true, 1, DefaultCondition, ColourTheme("#00f"), None);
    var config := Configuration(ColourTheme("#000000"), [r0, r1]);
    PrecedenceGroups(config, r0, r1);
    PrecedenceUserRules(config.rules, circ);
    ColourThemeFields("#000000");
    ResolveThemeLayers(config, circ);
    ResolvedLayers(config, circ, ClockColor);
    assert GroupSets(config, None, circ, ClockColor) by {
      assert config.rules[0] == r0;
    }
  }

  /** Both rules of the example are user rules. */
  lemma PrecedenceGroups(config: Configuration, r0: Rule, r1: Rule)
    requires r0.internalGroup.None? && r1.internalGroup.None? && config.rules == [r0, r1]
    ensures UserRules(config) == [r0, r1] && TickerRules(config) == []
  {
    assert config.rules[1..] == [r1];
    assert RulesInGroup([r1], None) == [r1];
    assert RulesInGroup([r1], Some(NewsTickerGroup)) == [];
  }

  /** A colour theme validates to its one enabled field. */
  lemma ColourThemeFields(v: string)
    ensures ValidateThemeFieldsArray(ColourTheme(v)) == Ok([ThemeField(ClockColor, StringValue(v), true)])
    ensures OnlyEnabledFields([ThemeField(ClockColor, StringValue(v), true)]) == [ThemeField(ClockColor, StringValue(v), true)]
  {
    var raw := RawField("clockColor", StringValue(v), true);
    assert ParseName(raw.name) == Some(ClockColor);
    var f := ThemeField(ClockColor, StringValue(v), true);
    assert ParseField(raw) == Ok(f);
    assert ColourTheme(v)[0] == raw && ColourTheme(v)[1..] == [];
    assert ValidateThemeFieldsArray([]) == Ok([]);
    assert [f] + [] == [f] && [f][1..] == [];
  }

  /** Among the example's user rules, the one with index 0 sets the colour. */
  lemma PrecedenceUserRules(rules: seq<Rule>, circ: Circumstances)
    requires rules == [Rule(true, 0, DefaultCondition, ColourTheme("#fff"), None),
                       Rule(true, 1, DefaultCondition, ColourTheme("#00f"), None)]
    ensures GetFieldsToApply(rules, circ).Ok?
    ensures ClockColor in GetFieldsToApply(rules, circ).value
    ensures GetFieldsToApply(rules, circ).value[ClockColor].value == StringValue("#fff")
  {
    DefaultConditionAlwaysTrue(circ);
    ColourThemeFields("#fff");
    ColourThemeFields("#00f");
    var f0 := ThemeField(ClockColor, StringValue("#fff"), true);
    assert RuleRecord(rules[0]) == map[ClockColor := f0] by {
      assert EnabledFieldsOf(rules[0]) == [f0];
      assert [f0][..0] == [];
    }
    PrecedenceWinner(rules, circ);
  }

  lemma PrecedenceWinner(rules: seq<Rule>, circ: Circumstances)
    requires |rules| == 2 && rules[0].index == 0 && rules[1].index == 1
    requires Contributes(rules[0], circ) && Contributes(rules[1], circ)
    requires ValidateThemeFieldsArray(rules[0].themeFields).Ok? && ValidateThemeFieldsArray(rules[1].themeFields).Ok?
    requires ClockColor in RuleRecord(rules[0])
    ensures GetFieldsToApply(rules, circ).Ok?
    ensures ClockColor in GetFieldsToApply(rules, circ).value
    ensures GetFieldsToApply(rules, circ).value[ClockColor] == RuleRecord(rules[0])[ClockColor]
  {
    FieldsToApplyFailsIff(rules, circ);
    forall i | 0 <= i < |rules| ensures ValidateThemeFieldsArray(rules[i].themeFields).Ok? {
      assert i == 0 || i == 1;
    }
    assert GetFieldsToApply(rules, circ).Ok?;
    assert SetsField(rules[0], circ, ClockColor);
    LowestIndexPresent(rules, circ, ClockColor);
    LowestIndexWins(rules, circ, ClockColor);
    var i :| IsLowestSetting(rules, circ, ClockColor, i)
      && GetFieldsToApply(rules, circ).value[ClockColor] == RuleRecord(rules[i])[ClockColor];
    assert i == 0 by {
      assert 0 <= i < 2 && rules[i].index <= rules[0].index;
    }
  }
}
