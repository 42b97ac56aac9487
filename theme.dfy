/**
 * Theme fields of `src/utils/theme.ts`: the closed set of field names with
 * the value type each name fixes, the array schema that validates stored
 * fields, and the helpers that filter, fold and project field collections.
 */
module Theme {
  import opened Wrappers

  datatype FieldName = HideClock | ClockColor | ClockSize

  /** A JSON value as stored in a field row. Numbers are modelled as integers. */
  datatype FieldValue = BoolValue(b: bool) | StringValue(s: string) | NumberValue(n: int)

  /** A field row as read from storage: any name, any value. */
  datatype RawField = RawField(name: string, value: FieldValue, enabled: bool)

  /** A field that passed `themeFieldsArraySchema`. */
  datatype ThemeField = ThemeField(name: FieldName, value: FieldValue, enabled: bool)

  /** `Partial<ThemeFieldsRecord>`: fields keyed by their name. */
  type FieldsRecord = map<FieldName, ThemeField>

  /** `ThemeFieldsNameValue`: the effective value of each field. */
  type NameValue = map<FieldName, FieldValue>

  const AllNames: set<FieldName> := {HideClock, ClockColor, ClockSize}

  function NameString(n: FieldName): string
  {
    match n
    case HideClock => "hideClock"
    case ClockColor => "clockColor"
    case ClockSize => "clockSize"
  }

  /** The literal of the union variant a name string selects, if any. */
  function ParseName(s: string): (r: Option<FieldName>)
    ensures r.Some? <==> s in {"hideClock", "clockColor", "clockSize"}
    ensures r.Some? ==> NameString(r.value) == s
    ensures forall n :: NameString(n) == s ==> r == Some(n)
  {
    if s == "hideClock" then Some(HideClock)
    else if s == "clockColor" then Some(ClockColor)
    else if s == "clockSize" then Some(ClockSize)
    else None
  }

  /** A field's name fixes its value type: `hideClock` is a boolean,
      `clockColor` a string, `clockSize` a number. */
  predicate HasValueType(n: FieldName, v: FieldValue)
  {
    match n
    case HideClock => v.BoolValue?
    case ClockColor => v.StringValue?
    case ClockSize => v.NumberValue?
  }

  predicate WellTyped(f: ThemeField)
  {
    HasValueType(f.name, f.value)
  }

  predicate AllWellTyped(fs: seq<ThemeField>)
  {
    forall i | 0 <= i < |fs| :: WellTyped(fs[i])
  }

  datatype ValidationError = UnknownFieldName(name: string) | WrongValueType(name: string)

  /** One element of `themeFieldsArraySchema`. */
  function ParseField(raw: RawField): (r: Result<ThemeField, ValidationError>)
    ensures r.Ok? ==> (WellTyped(r.value) && NameString(r.value.name) == raw.name
                       && r.value.value == raw.value && r.value.enabled == raw.enabled)
    ensures r.Err? <==> ParseName(raw.name).None? || !HasValueType(ParseName(raw.name).value, raw.value)
  {
    match ParseName(raw.name)
    case None => Err(UnknownFieldName(raw.name))
    case Some(n) =>
      if HasValueType(n, raw.value) then Ok(ThemeField(n, raw.value, raw.enabled))
      else Err(WrongValueType(raw.name))
  }

  /** `validateThemeFieldsArray`: the array schema. zod checks every element
      and reports all issues; the model keeps only the first failing
      element's error, which no contract reads. */
  function ValidateThemeFieldsArray(raws: seq<RawField>): (r: Result<seq<ThemeField>, ValidationError>)
    ensures r.Ok? <==> forall i | 0 <= i < |raws| :: ParseField(raws[i]).Ok?
    ensures r.Ok? ==> (|r.value| == |raws| && AllWellTyped(r.value)
                       && forall i | 0 <= i < |raws| :: r.value[i] == ParseField(raws[i]).value)
  {
    if raws == [] then Ok([])
    else match ParseField(raws[0])
      case Err(e) => Err(e)
      case Ok(f) =>
        match ValidateThemeFieldsArray(raws[1..])
        case Err(e) => Err(e)
        case Ok(rest) => Ok([f] + rest)
  }

  /** The storage form of a validated field. */
  function ToRaw(f: ThemeField): RawField
  {
    RawField(NameString(f.name), f.value, f.enabled)
  }

  function ToRawFields(fs: seq<ThemeField>): (r: seq<RawField>)
    ensures |r| == |fs| && forall i | 0 <= i < |fs| :: r[i] == ToRaw(fs[i])
  {
    if fs == [] then [] else [ToRaw(fs[0])] + ToRawFields(fs[1..])
  }

  /** Validation accepts every well-typed field list and gives it back unchanged. */
  lemma ValidateStoredFields(fs: seq<ThemeField>)
    requires AllWellTyped(fs)
    ensures ValidateThemeFieldsArray(ToRawFields(fs)) == Ok(fs)
  {
    var r := ValidateThemeFieldsArray(ToRawFields(fs));
    assert forall i | 0 <= i < |fs| :: ParseField(ToRaw(fs[i])) == Ok(fs[i]);
    assert r.Ok?;
    assert r.value == fs;
  }

  /** Whatever validation accepts is stored back as it was read. */
  lemma StoreValidatedFields(raws: seq<RawField>)
    requires ValidateThemeFieldsArray(raws).Ok?
    ensures ToRawFields(ValidateThemeFieldsArray(raws).value) == raws
  {
    var fs := ValidateThemeFieldsArray(raws).value;
    assert ToRawFields(fs) == raws;
  }

  // ---------------------------------------------------------------------
  // Folding an array into a record

  /** `i` is the last position of a field named `n`. */
  predicate IsLastWithName(fs: seq<ThemeField>, i: int, n: FieldName)
  {
    0 <= i < |fs| && fs[i].name == n && forall j | i < j < |fs| :: fs[j].name != n
  }

  function Names(fs: seq<ThemeField>): set<FieldName>
  {
    set i | 0 <= i < |fs| :: fs[i].name
  }

  /** `themeFieldsToPartialRecord`: the `reduce` that spreads each field
      under its name. */
  function ThemeFieldsToPartialRecord(fs: seq<ThemeField>): FieldsRecord
  {
    if fs == [] then map[]
    else ThemeFieldsToPartialRecord(fs[..|fs| - 1])[fs[|fs| - 1].name := fs[|fs| - 1]]
  }

  /** The record has exactly the names of the array as keys, and each key
      maps to the last field of the array with that name. */
  lemma {:induction false} PartialRecordLastWins(fs: seq<ThemeField>)
    ensures ThemeFieldsToPartialRecord(fs).Keys == Names(fs)
    ensures forall n | n in ThemeFieldsToPartialRecord(fs) ::
      exists i :: IsLastWithName(fs, i, n) && ThemeFieldsToPartialRecord(fs)[n] == fs[i]
  {
    if fs != [] {
      var init, last := fs[..|fs| - 1], fs[|fs| - 1];
      PartialRecordLastWins(init);
      var acc := ThemeFieldsToPartialRecord(init);
      var r := ThemeFieldsToPartialRecord(fs);
      assert r == acc[last.name := last];
      NamesSnoc(init, last);
      assert init + [last] == fs;
      assert IsLastWithName(fs, |fs| - 1, last.name);
      forall n | n in r
        ensures exists i :: IsLastWithName(fs, i, n) && r[n] == fs[i]
      {
        if n != last.name {
          var i :| IsLastWithName(init, i, n) && acc[n] == init[i];
          assert IsLastWithName(fs, i, n);
        }
      }
    }
  }

  lemma NamesSnoc(init: seq<ThemeField>, last: ThemeField)
    ensures Names(init + [last]) == Names(init) + {last.name}
  {
    var fs := init + [last];
    assert fs[|init|] == last;
    forall n | n in Names(fs) ensures n in Names(init) + {last.name} {
      var i :| 0 <= i < |fs| && fs[i].name == n;
      if i < |init| { assert init[i] == fs[i]; }
    }
    forall n | n in Names(init) ensures n in Names(fs) {
      var i :| 0 <= i < |init| && init[i].name == n;
      assert fs[i] == init[i];
    }
  }

  /** The field under each key carries that name. */
  lemma PartialRecordNamesMatch(fs: seq<ThemeField>)
    ensures forall n | n in ThemeFieldsToPartialRecord(fs) :: ThemeFieldsToPartialRecord(fs)[n].name == n
  {
    PartialRecordLastWins(fs);
  }

  /** Fields of a record that come from well-typed fields are well typed. */
  lemma PartialRecordWellTyped(fs: seq<ThemeField>)
    requires AllWellTyped(fs)
    ensures forall n | n in ThemeFieldsToPartialRecord(fs) :: WellTyped(ThemeFieldsToPartialRecord(fs)[n])
  {
    var r := ThemeFieldsToPartialRecord(fs);
    PartialRecordLastWins(fs);
    forall n | n in r ensures WellTyped(r[n]) {
      var i :| IsLastWithName(fs, i, n) && r[n] == fs[i];
    }
  }

  // ---------------------------------------------------------------------
  // Filtering and projecting

  /** `onlyEnabledFields`: `fields.filter((field) => field.enabled)`. */
  function OnlyEnabledFields(fs: seq<ThemeField>): (r: seq<ThemeField>)
    ensures forall f :: f in r <==> f in fs && f.enabled
    ensures |r| <= |fs|
  {
    if fs == [] then []
    else if fs[0].enabled then [fs[0]] + OnlyEnabledFields(fs[1..])
    else OnlyEnabledFields(fs[1..])
  }

  /** Filtering distributes over concatenation, so it keeps exactly the
      enabled fields in their original order. */
  lemma {:induction false} OnlyEnabledConcat(a: seq<ThemeField>, b: seq<ThemeField>)
    ensures OnlyEnabledFields(a + b) == OnlyEnabledFields(a) + OnlyEnabledFields(b)
  {
    if a == [] {
      assert a + b == b;
    } else {
      assert (a + b)[0] == a[0];
      assert (a + b)[1..] == a[1..] + b;
      OnlyEnabledConcat(a[1..], b);
    }
  }

  /** Filtering twice is filtering once. */
  lemma {:induction false} OnlyEnabledIdempotent(fs: seq<ThemeField>)
    ensures OnlyEnabledFields(OnlyEnabledFields(fs)) == OnlyEnabledFields(fs)
  {
    if fs != [] {
      OnlyEnabledIdempotent(fs[1..]);
    }
  }

  /** Filtering keeps well-typedness. */
  lemma OnlyEnabledWellTyped(fs: seq<ThemeField>)
    requires AllWellTyped(fs)
    ensures AllWellTyped(OnlyEnabledFields(fs))
  {
    var r := OnlyEnabledFields(fs);
    forall i | 0 <= i < |r| ensures WellTyped(r[i]) {
      assert r[i] in fs;
    }
  }

  /** A record with exactly one well-typed field per known name. */
  predicate CompleteRecord(r: FieldsRecord)
  {
    r.Keys == AllNames && forall n | n in r :: r[n].name == n && WellTyped(r[n])
  }

  /** `defaultThemeFields`: one disabled entry per name, with the built-in
      values `#ff0000`, 64 and `false`. */
  function DefaultThemeFields(): (r: FieldsRecord)
    ensures CompleteRecord(r)
    ensures forall n | n in r :: !r[n].enabled
  {
    map[
      ClockColor := ThemeField(ClockColor, StringValue("#ff0000"), false),
      ClockSize := ThemeField(ClockSize, NumberValue(64), false),
      HideClock := ThemeField(HideClock, BoolValue(false), false)]
  }

  /** The built-in value of each field. */
  function DefaultValue(n: FieldName): (v: FieldValue)
    ensures HasValueType(n, v)
    ensures v == DefaultThemeFields()[n].value
  {
    match n
    case ClockColor => StringValue("#ff0000")
    case ClockSize => NumberValue(64)
    case HideClock => BoolValue(false)
  }

  /** `themeFieldsRecordToNameValue`: keep the keys, drop the flags. */
  function ThemeFieldsRecordToNameValue(rec: FieldsRecord): (r: NameValue)
    ensures r.Keys == rec.Keys
    ensures forall n | n in r :: r[n] == rec[n].value
  {
    map n | n in rec :: rec[n].value
  }
}
