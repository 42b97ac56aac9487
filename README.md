# school:clock rule engine in Dafny

A model of the rule engine of the school:clock display and of the
bookkeeping that keeps rule precedence well defined:

- **Conditions** (`conditions.dfy`, `legacy_rules.dfy`): the recursive
  condition tree of boolean `and`/`or` nodes over leaf comparisons
  `eq`/`neq`/`gt`/`lt` on one circumstance field; the schema that limits
  operators and value ranges; the evaluator; the leaf counter. The older
  copy in `src/utils/rules.ts` is modelled separately, as the union of its
  object schemas and as `every`/`some` scans, and is proved to agree with
  the newer one.
- **Theme fields and theme resolution** (`theme.dfy`,
  `theme_resolution.dfy`). Fields are `hideClock`, `clockColor` and
  `clockSize`; each name fixes the type of its value. The model has the
  array schema, the enabled filter, the fold into a name-keyed record
  (last write wins), the defaults and the projection to values.
  `getFieldsToApply` keeps the enabled rules whose condition holds and drops
  their disabled fields. It sorts by descending index and folds, so the
  lowest index wins. The provider layers the defaults, the enabled base
  fields, the user rules and the `newsTicker` rules.
- **Rule router** (`rule_router.dfy`): the stored rule rows, with a class
  `RuleStore` whose methods are the handlers of `src/server/api/routers/rule.ts`.
  Writes obey a unique constraint on a rule's index within its
  configuration. `updateOrder` works around that constraint with a
  transaction in two passes. The first pass writes the scratch index
  `-index-1`, the second the requested index. The model proves when this
  transaction commits and what it commits. `create` gives a new rule the
  next index of its configuration.
- **Rule list of the dashboard** (`rules_section.dfy`). The in-place sort
  of the rule array is an insertion sort over an `array`, optionally using
  the indices of a pending reorder request. The model also covers the
  reorder request the drag handler builds and the update the enabled
  switch sends.
- **Condition editor** (`condition_editor.dfy`): the non-rendering logic of
  the type, operator and connective selects, and the replace, remove and
  add operations on children. It includes the remove confirmation.
- **Instance pairing** (`secret_requests.dfy`). The request table is a
  class `PairingStore` with `create` (expiry cleanup), the one-shot claim
  `getSecret`, and `setSecret` (digit filter, guards, pairing).
- **Dashboard summaries** (`dashboard.dfy`) and **news-ticker schemas**
  (`news_ticker.dfy`).

`wrappers.dfy` (Option, Result), `numerals.dfy` (decimal numerals) and
`int_sets.dfy` (maximum of a finite set) are shared helpers.

The caller's identity, the current time, random draws, fresh ids and fresh
secrets are explicit parameters. Database tables are maps. A transaction
runs on a copy of the table that replaces the table only when every write
has succeeded.

## Model

| member | source | states |
|---|---|---|
| `Conditions.IsBooleanCondition` | src/utils/conditions.ts:117-121 | holds exactly when the condition's `type` tag is `"boolean"` |
| `Conditions.ValidCondition` | src/utils/conditions.ts:104-113 | the union schema applied to every node: a boolean node is valid iff all its children are, a leaf iff its type admits its operator and value (`WeekdaySchema`, `OrderedKindsSchema`) |
| `Conditions.IsConditionTrue` | src/utils/conditions.ts:137-146 | dispatches on the `type` tag to the boolean or the leaf test (`BooleanSemantics`, `LegacyRules.AgreesWithConditions`) |
| `Conditions.IsBooleanConditionTrue` | src/utils/conditions.ts:148-161 | `every` child for `and`, `some` child for `or` (`BooleanSemantics`, `EmptyOrIsFalse`) |
| `Conditions.IsSimpleConditionTrue` | src/utils/conditions.ts:163-180 | compares the circumstance of the leaf's type with its value by the leaf's operator (`EqNeqComplementary`, `GtLtStrict`, `StrictEqualityOnDates`) |
| `Conditions.StrictlyEqual` | src/utils/conditions.ts:170-174 | `===` between the circumstance and the value: true only between two equal numbers, never for a `datetime` circumstance or a date value |
| `Conditions.StrictEqualityOnDates` | src/utils/conditions.ts:170-174 | a `datetime` leaf or a date value makes `eq` false and `neq` true at every instant; between numbers `eq` is equality |
| `Conditions.CountNestedSimpleConditions` | src/utils/conditions.ts:188-197 | 1 for a leaf, the sum over the children for a boolean node (`CountIsNumberOfLeaves`, `CountOfBoolean`) |
| `Conditions.WeekdaySchema` | src/utils/conditions.ts:18-22 | a weekday leaf is valid iff its operator is `eq` or `neq` and its value a number in 0..6 |
| `Conditions.OrderedKindsSchema` | src/utils/conditions.ts:26-113 | every non-weekday type admits all four operators, and is valid iff the value lies in the type's range; month is valid iff 1..12 |
| `Conditions.DefaultConditionAlwaysTrue` | src/utils/conditions.ts:182-186 | the default condition, an empty `and`, holds for every circumstances record and passes the schema |
| `Conditions.EmptyOrIsFalse` | src/utils/conditions.ts:148-161 | an `or` node without children is false at every instant |
| `Conditions.BooleanSemantics` | src/utils/conditions.ts:137-161 | an `and` node holds iff every child holds; an `or` node holds iff some child holds |
| `Conditions.EqNeqComplementary` | src/utils/conditions.ts:163-180 | for the same type and value, `eq` and `neq` give opposite results everywhere |
| `Conditions.GtLtStrict` | src/utils/conditions.ts:163-180 | `gt` and `lt` never hold together, and neither holds when the circumstance equals the value |
| `Conditions.CountIsNumberOfLeaves` | src/utils/conditions.ts:188-197 | the nested count equals the number of leaves of the tree, and every leaf is a simple condition |
| `Conditions.CountOfBoolean` | src/utils/conditions.ts:188-197 | an empty boolean node counts 0, and appending a child adds that child's count |
| `LegacyRules.ValidCondition` | src/utils/rules.ts:103-112 | the union of the eight object schemas in source order (`SchemaAgreesWithConditions`) |
| `LegacyRules.IsConditionTrue` | src/utils/rules.ts:132-141 | dispatches on the `type` tag, as in conditions.ts (`AgreesWithConditions`) |
| `LegacyRules.IsBooleanConditionTrue` | src/utils/rules.ts:143-156 | the short-circuit `every` scan for `and` and `some` scan for `or` (`AllChildrenAgree`, `SomeChildAgrees`) |
| `LegacyRules.IsSimpleConditionTrue` | src/utils/rules.ts:158-175 | the operator `switch` of a leaf, with `===` as `Conditions.StrictlyEqual` (`LeafOperators`) |
| `LegacyRules.AgreesWithConditions` | src/utils/rules.ts:132-175 | the older evaluator returns the same result as the newer one for every tree and every circumstances |
| `LegacyRules.AllChildrenAgree` | src/utils/rules.ts:143-156 | the short-circuit `every` scan from position i holds iff every later child holds |
| `LegacyRules.SomeChildAgrees` | src/utils/rules.ts:143-156 | the short-circuit `some` scan from position i holds iff some later child holds |
| `LegacyRules.SchemaAgreesWithConditions` | src/utils/rules.ts:3-112 | the older union schema accepts exactly the trees the newer schema accepts |
| `LegacyRules.ChildrenSchemaAgree` | src/utils/rules.ts:3-9 | the array schema over the children from position i accepts iff every later child is valid |
| `LegacyRules.EmptyBooleans` | src/utils/rules.ts:143-156 | an empty `and` is true and an empty `or` is false |
| `LegacyRules.LeafOperators` | src/utils/rules.ts:158-175 | `eq`/`neq` are complementary; `gt`/`lt` are never both true and both false at equality |
| `LegacyRules.WeekdayOnlyEqNeq` | src/utils/rules.ts:17-21 | a weekday leaf is valid iff its operator is `eq`/`neq` and its value is in 0..6 |
| `Theme.ParseName` | src/utils/theme.ts:6-12 | a name string selects a variant iff it is one of the three literals, and then the variant spells back to that string |
| `Theme.ParseField` | src/utils/theme.ts:6-18 | an element is rejected iff its name is unknown or its value has the wrong type for its name; an accepted one keeps name, value and flag |
| `Theme.ValidateThemeFieldsArray` | src/utils/theme.ts:42-44 | the array validates iff every element does, and then yields the parsed elements, same length and order, all well typed |
| `Theme.ValidateStoredFields` | src/utils/theme.ts:6-18 | every well-typed field list, written out, validates back to itself |
| `Theme.StoreValidatedFields` | src/utils/theme.ts:42-44 | whatever validates is written back exactly as it was read |
| `Theme.ThemeFieldsToPartialRecord` | src/utils/theme.ts:35-40 | the spread `reduce` of the fields into a name-keyed record (`PartialRecordLastWins`, `PartialRecordNamesMatch`, `PartialRecordWellTyped`) |
| `Theme.PartialRecordLastWins` | src/utils/theme.ts:35-40 | the record's keys are exactly the names in the array, and each key maps to the last field with that name |
| `Theme.PartialRecordNamesMatch` | src/utils/theme.ts:35-40 | the field under each key carries that key as its name |
| `Theme.PartialRecordWellTyped` | src/utils/theme.ts:22-40 | a record folded from well-typed fields holds only well-typed fields |
| `Theme.OnlyEnabledFields` | src/utils/theme.ts:64-66 | the result holds exactly the enabled fields of the input and is no longer than it |
| `Theme.OnlyEnabledConcat` | src/utils/theme.ts:64-66 | the filter distributes over concatenation, so enabled fields keep their original order |
| `Theme.OnlyEnabledIdempotent` | src/utils/theme.ts:64-66 | filtering twice gives the same as filtering once |
| `Theme.OnlyEnabledWellTyped` | src/utils/theme.ts:64-66 | filtering a well-typed list gives a well-typed list |
| `Theme.DefaultThemeFields` | src/utils/theme.ts:46-62 | one well-typed entry per field name, keyed by its own name, all disabled |
| `Theme.DefaultValue` | src/utils/theme.ts:46-62 | the built-in value of each name has that name's type and is the value in the defaults (`#ff0000`, 64, false) |
| `Theme.ThemeFieldsRecordToNameValue` | src/utils/theme.ts:68-74 | keeps the key set and maps each name to its field's value |
| `ThemeResolution.GetFieldsToApply` | src/components/client/ThemeProvider.tsx:83-107 | filter, validate, sort by descending index and merge one group's rules (`FieldsToApplyFailsIff`, `FieldsToApplyIsMerge`, `LowestIndexPresent`, `LowestIndexWins`) |
| `ThemeResolution.ResolveTheme` | src/components/client/ThemeProvider.tsx:28-55 | defaults, then the enabled base fields, then the user rules, then the `newsTicker` rules (`ResolveThemeLayers`, `ResolvedLayers`, `ResolvedComplete`) |
| `ThemeResolution.ContributingMembers` | src/components/client/ThemeProvider.tsx:84-88 | a rule survives both filters iff it is in the list, enabled, and its condition holds |
| `ThemeResolution.EnabledMembers` | src/components/client/ThemeProvider.tsx:84 | the enabled filter keeps exactly the enabled rules |
| `ThemeResolution.ActiveMembers` | src/components/client/ThemeProvider.tsx:86-88 | the active filter keeps exactly the rules whose condition holds |
| `ThemeResolution.OnlyEnabledOfActive` | src/components/client/ThemeProvider.tsx:90-96 | succeeds iff every active rule's fields validate, and then gives each rule its index and only its enabled fields, in order |
| `ThemeResolution.InsertSorted` | src/components/client/ThemeProvider.tsx:98-100 | inserting into a descending list keeps it descending and adds exactly the one element |
| `ThemeResolution.SortSorted` | src/components/client/ThemeProvider.tsx:98-100 | the sort by descending index yields a descending permutation of its input |
| `ThemeResolution.Records` | src/components/client/ThemeProvider.tsx:102-104 | one record per sorted rule, each the fold of that rule's fields |
| `ThemeResolution.MergeLastWins` | src/components/client/ThemeProvider.tsx:106 | the spread fold holds a name iff some record does, and then takes it from the last record holding it |
| `ThemeResolution.FieldsToApplyFailsIff` | src/components/client/ThemeProvider.tsx:83-107 | resolving a group fails iff some enabled, active rule has stored fields that do not validate |
| `ThemeResolution.LastHoldingIsLowest` | src/components/client/ThemeProvider.tsx:98-106 | in a descending list, the last entry holding a name has the smallest index among those holding it |
| `ThemeResolution.SortedWinner` | src/components/client/ThemeProvider.tsx:98-106 | the fold of a descending list holds a name iff some entry does, and takes it from an entry of smallest index |
| `ThemeResolution.FieldsToApplyIsMerge` | src/components/client/ThemeProvider.tsx:83-107 | a successful result is the fold of the reduced active rules in descending index order |
| `ThemeResolution.RuleInSorted` | src/components/client/ThemeProvider.tsx:84-100 | every contributing rule appears, reduced, in the sorted list |
| `ThemeResolution.SortedFromRule` | src/components/client/ThemeProvider.tsx:84-100 | every entry of the sorted list is a contributing rule, reduced |
| `ThemeResolution.LowestIndexPresent` | src/components/client/ThemeProvider.tsx:83-107 | a field is applied iff some enabled, active rule sets it in an enabled field |
| `ThemeResolution.LowestIndexWins` | src/components/client/ThemeProvider.tsx:98-106 | an applied field comes from a rule of smallest index among the rules that set it |
| `ThemeResolution.UniqueLowestIndexWins` | src/components/client/ThemeProvider.tsx:98-106 | when one setting rule has a strictly smaller index than every other setting rule, its value is applied |
| `ThemeResolution.AppliedFieldsEnabled` | src/components/client/ThemeProvider.tsx:90-96 | every applied field is enabled, well typed and filed under its own name, so a disabled field is never applied |
| `ThemeResolution.EnabledRulesConcat` | src/components/client/ThemeProvider.tsx:84 | the enabled filter distributes over concatenation |
| `ThemeResolution.ActiveRulesConcat` | src/components/client/ThemeProvider.tsx:86-88 | the active filter distributes over concatenation |
| `ThemeResolution.NonContributingRuleIgnored` | src/components/client/ThemeProvider.tsx:84-88 | removing a disabled rule, or one whose condition is false, leaves the result unchanged, failures included |
| `ThemeResolution.GroupMembers` | src/components/client/ThemeProvider.tsx:36-46 | the group filter keeps exactly the rules of that internal group |
| `ThemeResolution.GroupSetsIff` | src/components/client/ThemeProvider.tsx:36-46 | a group's result holds a field iff some enabled, active rule of the group sets it |
| `ThemeResolution.ResolveThemeLayers` | src/components/client/ThemeProvider.tsx:28-55 | resolution succeeds iff the base theme and both groups validate, and then equals the four layers merged, without flags |
| `ThemeResolution.ResolvedComplete` | src/components/client/ThemeProvider.tsx:48-55 | the resolved theme has a value for every field name, of that name's type |
| `ThemeResolution.ResolvedLayers` | src/components/client/ThemeProvider.tsx:28-55 | a field takes the `newsTicker` value if that group sets it; else the user-rule value; else the enabled base field; else the default |
| `ThemeResolution.PrecedenceExample` | src/components/client/ThemeProvider.tsx:36-55 | with base colour `#000000` and active user rules of index 0 (`#fff`) and 1 (`#00f`), the resolved colour is `#fff` |
| `ThemeResolution.PrecedenceUserRules` | src/components/client/ThemeProvider.tsx:98-106 | for the two rules of the example, the applied colour is `#fff` |
| `ThemeResolution.PrecedenceWinner` | src/components/client/ThemeProvider.tsx:98-106 | of two contributing rules with indices 0 and 1, the index-0 rule's colour is applied whenever it sets one |
| `RuleRouter.Trim` | src/server/api/routers/rule.ts:35 | `z.string().trim()`: the leading and then the trailing whitespace removed (`TrimmedEnds`, `TrimIdempotent`) |
| `RuleRouter.TrimStart` | src/server/api/routers/rule.ts:102 | drops only leading whitespace and leaves the result without leading whitespace |
| `RuleRouter.TrimEnd` | src/server/api/routers/rule.ts:102 | drops only trailing whitespace and leaves the result without trailing whitespace |
| `RuleRouter.TrimmedEnds` | src/server/api/routers/rule.ts:35 | a trimmed name has no whitespace at either end, and only whitespace was removed around it |
| `RuleRouter.TrimIdempotent` | src/server/api/routers/rule.ts:215 | trimming a trimmed name changes nothing |
| `RuleRouter.ApplyWrites` | src/server/api/routers/rule.ts:204-207 | a committed transaction keeps the set of rows, and writes to existing rows never fail as not-found |
| `RuleRouter.ScratchIndex` | src/server/api/routers/rule.ts:193-202 | the scratch index of a non-negative index is negative, and distinct indices have distinct scratch indices |
| `RuleRouter.Scratch` | src/server/api/routers/rule.ts:193-202 | one scratch write per affected rule, in order, with its scratch index |
| `RuleRouter.ApplyWritesConcat` | src/server/api/routers/rule.ts:204-207 | running two batches of writes is running the first and then, if it commits, the second |
| `RuleRouter.Phase1Step` | src/server/api/routers/rule.ts:193-202 | the k-th scratch write collides iff an earlier listed rule of the same configuration asks for the same index |
| `RuleRouter.Phase1CollisionIsRepeat` | src/server/api/routers/rule.ts:193-202 | a scratch write can collide only with the scratch write of an earlier rule with the same target |
| `RuleRouter.Phase1RepeatCollides` | src/server/api/routers/rule.ts:193-202 | an earlier rule of the same configuration with the same target makes the scratch write collide |
| `RuleRouter.Phase1From` | src/server/api/routers/rule.ts:193-202 | the first pass commits iff no two listed rules of one configuration ask for the same index |
| `RuleRouter.Phase2Step` | src/server/api/routers/rule.ts:181-190 | after the first pass, the k-th final write collides iff an unlisted rule of its configuration holds its target |
| `RuleRouter.Phase2ListedApart` | src/server/api/routers/rule.ts:181-190 | before the k-th final write, no other listed rule of the same configuration holds its target |
| `RuleRouter.Phase2From` | src/server/api/routers/rule.ts:181-190 | the second pass commits iff no unlisted rule holds a requested index of its configuration |
| `RuleRouter.ReorderedUniqueIff` | src/server/api/routers/rule.ts:139-210 | the reordered table keeps unique indices iff requested indices are distinct per configuration and held by no unlisted rule |
| `RuleRouter.ReorderedUniqueNeeds` | src/server/api/routers/rule.ts:139-210 | unique indices after reordering force distinct targets and no clash with unlisted rules |
| `RuleRouter.ReorderedUniqueSuffices` | src/server/api/routers/rule.ts:139-210 | distinct targets that clash with no unlisted rule give unique indices after reordering |
| `RuleRouter.TwoPhaseOutcome` | src/server/api/routers/rule.ts:181-207 | the two passes commit exactly when the reordered table keeps unique indices, and then yield that table |
| `RuleRouter.SinglePassSwapFails` | src/server/api/routers/rule.ts:181-207 | swapping indices 0 and 1 with direct writes trips the unique constraint, while the two passes swap them |
| `RuleRouter.TwoPhaseSwap` | src/server/api/routers/rule.ts:181-207 | the two-pass transaction swaps the indices of two rules of one configuration |
| `RuleRouter.IdsCardinality` | src/server/api/routers/rule.ts:149-154 | the id set of the input is no larger than the input, and is as large iff no id repeats |
| `RuleRouter.OwnedCount` | src/server/api/routers/rule.ts:156-173 | with distinct ids, the owned-rule count equals the input length iff every id is a rule of the caller |
| `RuleRouter.Affected` | src/server/api/routers/rule.ts:175-179 | the placements whose index differs from the stored one, in input order (`AffectedMembers`, `AffectedDistinct`, `AffectedReindex`) |
| `RuleRouter.UpdateOrderOutcome` | src/server/api/routers/rule.ts:139-210 | the handler's checks in source order, then the scratch writes and the final writes as one transaction (`UpdateOrderCharacterised`) |
| `RuleRouter.AffectedMembers` | src/server/api/routers/rule.ts:175-179 | a placement is written iff it is in the input and changes its rule's stored index |
| `RuleRouter.AffectedDistinct` | src/server/api/routers/rule.ts:175-179 | the affected placements keep the input's distinct ids |
| `RuleRouter.AffectedReindex` | src/server/api/routers/rule.ts:175-190 | writing only the affected placements gives the same table as writing all of them |
| `RuleRouter.UpdateOrderCharacterised` | src/server/api/routers/rule.ts:139-210 | malformed input, a repeated id or a rule that is not the caller's fails with BAD_REQUEST; else it commits iff indices stay unique, giving each listed rule its index and leaving all else unchanged |
| `RuleRouter.UpdateOrderKeepsInvariant` | src/server/api/routers/rule.ts:139-210 | a committed reorder keeps indices unique and non-negative, keeps every row, and changes at most each row's index |
| `RuleRouter.NextIndex` | src/server/api/routers/rule.ts:66-94 | 0 for a configuration without rules, else one more than an existing index, and larger than every index of the configuration |
| `RuleRouter.LargestIndex` | src/server/api/routers/rule.ts:66-79 | the query for the largest index yields the next index of the configuration |
| `RuleRouter.AppendKeepsInvariant` | src/server/api/routers/rule.ts:81-96 | adding a rule with the next index keeps indices unique and non-negative |
| `RuleRouter.RunTransaction` | src/server/api/routers/rule.ts:204-207 | the loop over the writes on a copy gives the outcome of the writes in order, aborting at the first failure |
| `RuleRouter.RuleStore.GetAll` | src/server/api/routers/rule.ts:7-16 | rejects an empty id; otherwise exactly the stored rules of that configuration when the caller owns it, unchanged |
| `RuleRouter.RuleStore.GetById` | src/server/api/routers/rule.ts:17-30 | rejects an empty id; otherwise the stored rule iff it is in a configuration of the caller, else nothing |
| `RuleRouter.RuleStore.Create` | src/server/api/routers/rule.ts:31-97 | BAD_REQUEST on empty input, UNAUTHORIZED unless the caller owns both configuration and theme; else adds one rule with the trimmed name, the default condition and the next index, keeping the store valid |
| `RuleRouter.RuleStore.Update` | src/server/api/routers/rule.ts:98-138 | BAD_REQUEST on empty input, UNAUTHORIZED unless the caller owns the theme, not-found unless the rule is the caller's; else sets only name, flag and theme |
| `RuleRouter.RuleStore.ChangeName` | src/server/api/routers/rule.ts:211-230 | the caller's rule gets the trimmed name and nothing else changes; otherwise the table is untouched |
| `RuleRouter.RuleStore.ChangeTheme` | src/server/api/routers/rule.ts:231-267 | UNAUTHORIZED unless the caller owns the theme; the caller's rule gets that theme and nothing else changes |
| `RuleRouter.RuleStore.UpdateCondition` | src/server/api/routers/rule.ts:268-287 | a condition that fails the schema is BAD_REQUEST; the caller's rule gets the condition and nothing else changes |
| `RuleRouter.RuleStore.Delete` | src/server/api/routers/rule.ts:288-297 | removes exactly the caller's rule; otherwise the table is untouched |
| `RuleRouter.RuleStore.UpdateOrder` | src/server/api/routers/rule.ts:139-210 | succeeds iff the characterised outcome does, and then stores it; on failure returns its error and leaves the table as it was |
| `RulesSection.Compare` | src/components/dashboard/configuration/RulesSection.tsx:67-77 | by requested index when both rules are in the pending request, else by stored index (`CompareAntisymmetric`, `PartialRequestCycle`) |
| `RulesSection.RequestedIndex` | src/components/dashboard/configuration/RulesSection.tsx:70-71 | absent iff no placement names the id; otherwise the index of a placement of that id |
| `RulesSection.RequestedIndexIsFirst` | src/components/dashboard/configuration/RulesSection.tsx:70-71 | a found index is that of the first placement naming the id, as `find` returns |
| `RulesSection.CompareAntisymmetric` | src/components/dashboard/configuration/RulesSection.tsx:67-77 | swapping the two rules negates the comparison |
| `RulesSection.SortRules` | src/components/dashboard/configuration/RulesSection.tsx:67-77 | the array ends as a permutation of itself with every neighbouring pair in comparator order |
| `RulesSection.SortedByStoredIndex` | src/components/dashboard/configuration/RulesSection.tsx:67-68 | without a pending reorder, a sorted list is ascending by stored index |
| `RulesSection.SortedByRequestedIndex` | src/components/dashboard/configuration/RulesSection.tsx:70-76 | with a pending reorder that lists every rule, a sorted list is ascending by requested index |
| `RulesSection.PartialRequestCycle` | src/components/dashboard/configuration/RulesSection.tsx:70-76 | with a request listing only some rules the comparator has a cycle, and a list can be sorted with a requested-later rule first |
| `RulesSection.FindIndex` | src/components/dashboard/configuration/RulesSection.tsx:86-87 | -1 iff the id is absent, otherwise the first position holding it |
| `RulesSection.ArrayMove` | src/components/dashboard/configuration/RulesSection.tsx:93-96 | takes the element at `from` out and puts it back at position `to` (`ArrayMoveSpec`) |
| `RulesSection.ArrayMoveSpec` | src/components/dashboard/configuration/RulesSection.tsx:93-96 | the moved element lands at the drop position, the others keep their relative order, and nothing is lost or duplicated |
| `RulesSection.Numbered` | src/components/dashboard/configuration/RulesSection.tsx:97 | the request pairs each id with its position, 0..n-1 in list order |
| `RulesSection.DragEndRequest` | src/components/dashboard/configuration/RulesSection.tsx:79-102 | no request for a drop on itself, outside the list, or of an unlisted id; else the numbered moved order (`DragEndNoRequest`, `DragEndIsMove`, `DragEndRequestSpec`) |
| `RulesSection.DragEndNoRequest` | src/components/dashboard/configuration/RulesSection.tsx:82-91 | no request iff the item is dropped on itself or outside the list, or either id is not listed |
| `RulesSection.DragEndRequestSpec` | src/components/dashboard/configuration/RulesSection.tsx:79-102 | with distinct ids, the request numbers 0..n-1 a permutation of the ids, without repeats, where the dragged rule is at the drop position and the rest keep their order |
| `RulesSection.DragEndIsMove` | src/components/dashboard/configuration/RulesSection.tsx:86-97 | for two listed, different ids the request is the numbered move from the dragged position to the drop position |
| `RulesSection.MoveRequestSpec` | src/components/dashboard/configuration/RulesSection.tsx:93-97 | the numbered move of distinct ids is numbered 0..n-1, repeats no id, is a permutation, and places the moved id at the target |
| `RulesSection.EnabledClickRequest` | src/components/dashboard/configuration/RulesSection.tsx:202-209 | the update the switch sends: the row's id, name and theme with `enabled` negated (`EnabledClickToggles`) |
| `RulesSection.EnabledClickToggles` | src/components/dashboard/configuration/RulesSection.tsx:202-209 | the switch's update keeps id, name and theme and negates `enabled`; a second click restores the row |
| `ConditionEditor.EditorRoot` | src/components/dashboard/RuleConditionEditor.tsx:14-15 | a boolean root is edited as it is; any other root yields the corruption message |
| `ConditionEditor.TypeChange` | src/components/dashboard/RuleConditionEditor.tsx:42-89 | the type select: nothing for a boolean node, else a leaf of the new type with operator and value converted (`TypeChangeSpec`, `TypeChangeRoundTrip`) |
| `ConditionEditor.TypeChangeSpec` | src/components/dashboard/RuleConditionEditor.tsx:42-89 | no change for a boolean node; otherwise a leaf of the new type whose operator its type admits, weekday falling back to `eq`, the operator kept when admitted, the number kept between non-date types |
| `ConditionEditor.TypeChangeRoundTrip` | src/components/dashboard/RuleConditionEditor.tsx:68-79 | number to datetime and back, and datetime to number and back, give back the original leaf |
| `ConditionEditor.OperatorChange` | src/components/dashboard/RuleConditionEditor.tsx:91-117 | the operator select: nothing for a boolean node or an ordering on a weekday leaf, else the new operator (`OperatorChangeSpec`) |
| `ConditionEditor.OperatorChangeSpec` | src/components/dashboard/RuleConditionEditor.tsx:91-117 | no change for a boolean node or for `gt`/`lt` on a weekday leaf; otherwise only the operator changes, and validity is kept |
| `ConditionEditor.ConnectiveChange` | src/components/dashboard/RuleConditionEditor.tsx:131-133 | the connective select of a boolean node replaces only its operator (`ConnectiveChangeKeepsLeaves`) |
| `ConditionEditor.ConnectiveChangeKeepsLeaves` | src/components/dashboard/RuleConditionEditor.tsx:129-133 | switching `and`/`or` keeps the leaf count and validity |
| `ConditionEditor.ReplaceChild` | src/components/dashboard/RuleConditionEditor.tsx:143-147 | the copied children with slot i assigned (`ReplaceChildSpec`, `ReplaceChildCount`) |
| `ConditionEditor.RemoveChild` | src/components/dashboard/RuleConditionEditor.tsx:148-152 | the copied children with `splice(i, 1)` applied (`RemoveChildSpec`, `RemoveChildCount`) |
| `ConditionEditor.AppendChild` | src/components/dashboard/RuleConditionEditor.tsx:156-181 | the children with the new child pushed at the end (`AppendChildSpec`, `AppendChildCount`) |
| `ConditionEditor.ReplaceChildSpec` | src/components/dashboard/RuleConditionEditor.tsx:143-147 | replacing child i changes slot i only |
| `ConditionEditor.RemoveChildSpec` | src/components/dashboard/RuleConditionEditor.tsx:148-152 | removing child i deletes exactly that child and keeps the others in order |
| `ConditionEditor.AppendChildSpec` | src/components/dashboard/RuleConditionEditor.tsx:156-181 | adding keeps the existing children and puts the new one at the end |
| `ConditionEditor.ReplaceChildCount` | src/components/dashboard/RuleConditionEditor.tsx:143-147 | replacing a child changes the leaf count by the difference of the two children's counts |
| `ConditionEditor.RemoveChildCount` | src/components/dashboard/RuleConditionEditor.tsx:148-152 | removing a child takes away exactly that child's leaves |
| `ConditionEditor.AppendChildCount` | src/components/dashboard/RuleConditionEditor.tsx:156-181 | adding the empty `and` adds no leaf; adding the default day leaf adds one |
| `ConditionEditor.EditsKeepValidity` | src/components/dashboard/RuleConditionEditor.tsx:139-181 | replace, remove and add on a valid tree with valid parts give a valid tree; both default children are valid |
| `ConditionEditor.AppendBooleanChildTruth` | src/components/dashboard/RuleConditionEditor.tsx:156-168 | adding the empty `and` keeps an `and` node's truth and makes an `or` node true |
| `ConditionEditor.RemoveNeedsConfirmation` | src/components/dashboard/RuleConditionEditor.tsx:184-196 | a boolean node whose nested count exceeds one (`RemoveNeedsConfirmationIff`) |
| `ConditionEditor.RemoveNeedsConfirmationIff` | src/components/dashboard/RuleConditionEditor.tsx:184-196 | confirmation is asked iff the subtree has more than one leaf; never for an empty node or for one default child |
| `SecretRequests.FilterDigits` | src/server/api/routers/instanceSecretRequest.ts:70-72 | the result is all digits and contains exactly the characters of the input that are digits |
| `SecretRequests.FilterDigitsConcat` | src/server/api/routers/instanceSecretRequest.ts:70-72 | the filter distributes over concatenation, so digits keep their original order |
| `SecretRequests.FilterKeepsDigits` | src/server/api/routers/instanceSecretRequest.ts:70-72 | a code made of digits passes the filter unchanged |
| `SecretRequests.TypedCodeFilters` | src/server/api/routers/instanceSecretRequest.ts:70-72 | non-digits typed around a code are dropped and the code is left |
| `SecretRequests.RequestCode` | src/server/api/routers/instanceSecretRequest.ts:24-26 | the request code of a draw has nine digits and survives the digit filter |
| `SecretRequests.Cleaned` | src/server/api/routers/instanceSecretRequest.ts:14-20 | keeps exactly the requests created after one hour ago, unchanged |
| `SecretRequests.ClaimResult` | src/server/api/routers/instanceSecretRequest.ts:30-61 | BAD_REQUEST on an empty code or token, NOT_FOUND without a request of that code and token, else its secret or null (`ClaimIsOneShot`, `PairThenClaim`) |
| `SecretRequests.AfterClaim` | src/server/api/routers/instanceSecretRequest.ts:51-58 | the request is deleted only when a secret was returned (`ClaimIsOneShot`) |
| `SecretRequests.ClaimIsOneShot` | src/server/api/routers/instanceSecretRequest.ts:37-61 | a claim before pairing answers null and keeps the request; a claim that returns a secret makes the same claim NOT_FOUND |
| `SecretRequests.PairThenClaim` | src/server/api/routers/instanceSecretRequest.ts:51-60 | after pairing a waiting request, its token claims exactly the new secret, once |
| `SecretRequests.PairingRoundTrip` | src/server/api/routers/instanceSecretRequest.ts:12-121 | a created request, paired through its code typed with stray non-digits around it, is claimed by its token for the secret exactly once |
| `SecretRequests.PairingStore.Create` | src/server/api/routers/instanceSecretRequest.ts:12-29 | cleans up expired requests, then adds a request with the new code, or fails on a code still in use |
| `SecretRequests.PairingStore.GetSecret` | src/server/api/routers/instanceSecretRequest.ts:30-61 | BAD_REQUEST on empty input, NOT_FOUND without a matching code and token, null while unpaired; a secret is returned and its request deleted |
| `SecretRequests.PairingStore.SetSecret` | src/server/api/routers/instanceSecretRequest.ts:62-121 | BAD_REQUEST on empty input, UNAUTHORIZED unless the instance is in the caller's configuration, PRECONDITION_FAILED unless a request awaits the filtered code; else the instance gets the secret with `lastSeen` cleared and the request stores it |
| `Dashboard.BadgeFormatText` | src/pages/dashboard/index.tsx:30-32 | the count, a space and the singular or plural word (`BadgeFormatTextSpec`) |
| `Dashboard.IsOnline` | src/pages/dashboard/index.tsx:38 | `lastSeen` is set and later than one hour before the clock reading |
| `Dashboard.OnlineCount` | src/pages/dashboard/index.tsx:34-40 | the number of online instances at one clock reading (`CountsPartition`, `OnlineCountAntitone`) |
| `Dashboard.OfflineCount` | src/pages/dashboard/index.tsx:42-44 | the number of instances minus the online count (`CountsPartition`) |
| `Dashboard.OfflineBadge` | src/pages/dashboard/index.tsx:84-96 | the offline badge's text when the offline count is positive, else nothing (`OfflineBadgeShown`) |
| `Dashboard.BadgeFormatTextSpec` | src/pages/dashboard/index.tsx:30-32 | the text is the count's numeral, a space and the word, singular iff the count is 1, so 0 is plural |
| `Dashboard.CountsPartition` | src/pages/dashboard/index.tsx:34-44 | the online count is at most the number of instances; offline counts the instances not online; the two add up to all |
| `Dashboard.OnlineCountAntitone` | src/pages/dashboard/index.tsx:78-95 | a later clock reading never counts more instances online, so the two badges together cover every instance |
| `Dashboard.OfflineBadgeShown` | src/pages/dashboard/index.tsx:84-96 | the offline badge is shown iff some instance is not online |
| `Dashboard.VisibleThemes` | src/pages/dashboard/index.tsx:118-119 | the listing holds exactly the themes that are not internal |
| `Dashboard.VisibleThemesConcat` | src/pages/dashboard/index.tsx:118-119 | the internal-theme filter distributes over concatenation, so the listing keeps the themes' order |
| `NewsTicker.ParseBase` | src/utils/newsTicker.ts:3-10 | the base object schema (`SchemaConditions`, `LoopMustBeWhole`) |
| `NewsTicker.ParseNew` | src/utils/newsTicker.ts:14-16 | the base schema plus a non-empty configuration id (`SchemaConditions`, `SchemasNest`) |
| `NewsTicker.ParseStored` | src/utils/newsTicker.ts:18-20 | the new schema plus a non-empty id (`SchemaConditions`, `SchemasNest`, `StoredRoundTrip`) |
| `NewsTicker.SchemaConditions` | src/utils/newsTicker.ts:3-20 | base: non-empty text and a whole loop count of at least 0; new: also a non-empty configuration id; stored: also a non-empty id |
| `NewsTicker.SchemasNest` | src/utils/newsTicker.ts:14-20 | what the stored schema accepts the new schema accepts with the same fields, and likewise new within base |
| `NewsTicker.LoopMustBeWhole` | src/utils/newsTicker.ts:3-10 | a fractional or negative loop count fails all three schemas |
| `NewsTicker.StoredRoundTrip` | src/utils/newsTicker.ts:3-20 | a ticker meeting the schemas is sent and parsed back unchanged |

## Left out

- Persistence and transport. Prisma queries and tRPC plumbing become maps and functions. A transaction is all-or-nothing on a copy of the table. Concurrent requests are not modelled.
- Authentication. The caller's user id is a parameter.
- The thin routers `configuration.ts`, `theme.ts`, `themeRouter.ts` and `instance.ts`, and the news-ticker router, are not part of this model. The news-ticker `create` ends after its ownership check and returns nothing.
- Rendering, hooks, context, layout pages, `RuleConditionTester.tsx`, the clock's text formatting, `TimeProvider.tsx`, `localStorage` and polling.
- `generateCircumstances` (src/components/client/ThemeProvider.tsx:70-81) depends on the time zone; circumstances are an input. It fills `month` with `getMonth()` (0 to 11), while the month schema admits 1 to 12. The model keeps the schema as written and does not reconcile the two.
- `validateCondition` and a `datetime` schema do not appear in `src/utils/conditions.ts` or `src/utils/rules.ts`. Rules carry already parsed condition trees. The schema predicates reject `datetime` leaves, as the shown schemas do.
- The database schema is not part of this model. It supplies three things:
  - the `enabled` default of a new rule, which is the store's `newRuleEnabled`;
  - its `condition` default, taken to be `defaultCondition`;
  - the unique constraint on `index`, taken to be per configuration.
- `RuleRouter.RuleStore.Create`: the next index is taken over the whole configuration, internal groups included, because the query filters only by configuration.
- `RuleRouter.RuleStore.Create`: the new row's id comes from the database. It is the parameter `freshId`, and the caller must pass one that names no existing row.
- `RuleRouter.RuleStore.Update`, `ChangeName`, `ChangeTheme`, `UpdateCondition` and `Delete`: a `where` that matches no row is modelled as the error `RecordNotFound`. Prisma raises an error there whose code is not modelled.
- JavaScript numbers are modelled as integers. Fractional and non-finite values, and `parseInt` in the editor's value input, are not modelled. The one exception is the news-ticker `loop` and `speed`: they are reals, so that the `int()` check has something to reject.
- Dates are their millisecond time values, which `gt` and `lt` compare. `eq` and `neq` are `===` and `!==`, which compare two `Date` objects by identity, so a `datetime` leaf or a date value is never strictly equal to its circumstance (`Conditions.StrictlyEqual`, `Conditions.StrictEqualityOnDates`). An Invalid Date and the range limit of `new Date` are not modelled.
- `Math.random` and `randomUUID` are not modelled. The request code's draw, the claim token and the new secret are parameters.
- `setSecret` fails if the request's update finds no row. That cannot happen after the precondition check, so it is not modelled.
- `arrayMove` belongs to dnd-kit, which is not part of this model. It is modelled from its documented behaviour.
- `RulesSection.SortRules`: JavaScript's `sort` is modelled as an insertion sort. With a pending request that lists only some rules, the comparator is not transitive (`RulesSection.PartialRequestCycle`). With an inconsistent comparator, ECMAScript leaves the resulting order implementation-defined; the model states only the local order its insertion sort produces, and proves the requested-index order only when every rule is requested.
- `ThemeResolution.GetFieldsToApply` sorts with `b.index - a.index`. This is modelled as a stable insertion sort. Rules of one group with equal indices are ordered by that stable sort, and precedence between them is stated only as "some rule of smallest index".
