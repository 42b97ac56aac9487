/**
 * The news-ticker schemas of `src/utils/newsTicker.ts`. An object read from
 * a request may lack the keys the extended schemas add; each schema parses
 * it into the typed record it describes, dropping the keys it does not
 * know. Numbers are reals so that `int()` has something to reject; dates
 * are their millisecond time values.
 */
module NewsTicker {
  import opened Wrappers

  /** The input object: the keys of all three schemas, the added ones
      perhaps missing. */
  datatype RawTicker = RawTicker(
    text: string, loop: real, speed: real, forceHiddenFalse: bool,
    startAt: int, endAt: int,
    configurationId: Option<string>, id: Option<string>)

  /** `BaseNewsTicker`. */
  datatype BaseTicker = BaseTicker(
    text: string, loop: nat, speed: real, forceHiddenFalse: bool, startAt: int, endAt: int)

  /** The output of `newNewsTickerSchema`. */
  datatype NewTicker = NewTicker(base: BaseTicker, configurationId: string)

  /** The output of `newsTickerSchema`. */
  datatype StoredTicker = StoredTicker(ticker: NewTicker, id: string)

  predicate IsInteger(x: real)
  {
    x == x.Floor as real
  }

  /** `baseNewsTickerSchema`: a non-empty text and a whole, non-negative
      loop count. */
  function ParseBase(raw: RawTicker): Option<BaseTicker>
  {
    if |raw.text| >= 1 && IsInteger(raw.loop) && raw.loop >= 0.0 then
      Some(BaseTicker(raw.text, raw.loop.Floor, raw.speed, raw.forceHiddenFalse, raw.startAt, raw.endAt))
    else None
  }

  /** `newNewsTickerSchema`: the base schema and a non-empty
      `configurationId`. */
  function ParseNew(raw: RawTicker): Option<NewTicker>
  {
    match ParseBase(raw)
    case None => None
    case Some(base) =>
      if raw.configurationId.Some? && |raw.configurationId.value| >= 1 then Some(NewTicker(base, raw.configurationId.value))
      else None
  }

  /** `newsTickerSchema`: the new-ticker schema and a non-empty `id`. */
  function ParseStored(raw: RawTicker): Option<StoredTicker>
  {
    match ParseNew(raw)
    case None => None
    case Some(t) =>
      if raw.id.Some? && |raw.id.value| >= 1 then Some(StoredTicker(t, raw.id.value)) else None
  }

  /** What each schema demands, in full. */
  lemma SchemaConditions(raw: RawTicker)
    ensures ParseBase(raw).Some? <==> |raw.text| >= 1 && IsInteger(raw.loop) && raw.loop >= 0.0
    ensures ParseBase(raw).Some? ==> ParseBase(raw).value.loop as real == raw.loop
    ensures ParseNew(raw).Some? <==>
      ParseBase(raw).Some? && raw.configurationId.Some? && |raw.configurationId.value| >= 1
    ensures ParseStored(raw).Some? <==> ParseNew(raw).Some? && raw.id.Some? && |raw.id.value| >= 1
  {
  }

  /** Whatever the stored-ticker schema accepts the new-ticker schema
      accepts, with the same fields, and likewise for the base schema. */
  lemma SchemasNest(raw: RawTicker)
    ensures ParseStored(raw).Some? ==> ParseNew(raw) == Some(ParseStored(raw).value.ticker)
    ensures ParseNew(raw).Some? ==> ParseBase(raw) == Some(ParseNew(raw).value.base)
  {
  }

  /** A loop count that is not whole, or negative, fails all three. */
  lemma LoopMustBeWhole(raw: RawTicker)
    requires !IsInteger(raw.loop) || raw.loop < 0.0
    ensures ParseBase(raw).None? && ParseNew(raw).None? && ParseStored(raw).None?
  {
  }

  /** The object a stored ticker is sent as. */
  function ToRaw(t: StoredTicker): RawTicker
  {
    var b := t.ticker.base;
    RawTicker(b.text, b.loop as real, b.speed, b.forceHiddenFalse, b.startAt, b.endAt,
              Some(t.ticker.configurationId), Some(t.id))
  }

  /** A ticker that satisfies the schemas comes back unchanged from being
      sent and parsed. */
  lemma StoredRoundTrip(t: StoredTicker)
    requires |t.ticker.base.text| >= 1 && |t.ticker.configurationId| >= 1 && |t.id| >= 1
    ensures ParseStored(ToRaw(t)) == Some(t)
  {
    var n := t.ticker.base.loop;
    assert (n as real).Floor == n;
  }
}
