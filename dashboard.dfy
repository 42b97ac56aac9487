/**
 * The summaries of the dashboard page, `src/pages/dashboard/index.tsx`: the
 * online and offline instance counts of a configuration, the badge texts,
 * and the theme listing without internal themes. The current time is a
 * parameter of each count.
 */
module Dashboard {
  import opened Wrappers
  import opened Numerals

  /** One hour in milliseconds. */
  const OnlineWindow: int := 60 * 60 * 1000

  /** `bagdeFormatText`: the count, a space, and the singular word for a
      count of exactly one, the plural word otherwise. */
  function BadgeFormatText(count: nat, singular: string, plural: string): string
  {
    DecimalString(count) + " " + (if count == 1 then singular else plural)
  }

  /** The text splits at its first space into the numeral of the count and
      the word, which is the singular one exactly when the count is 1; a
      count of 0 takes the plural. */
  lemma BadgeFormatTextSpec(count: nat, singular: string, plural: string)
    ensures var text, k := BadgeFormatText(count, singular, plural), |DecimalString(count)|;
      && 1 <= k < |text| && DigitsOnly(text[..k]) && text[k] == ' '
      && text[..k] == DecimalString(count)
      && text[k + 1..] == (if count == 1 then singular else plural)
    ensures singular != plural ==>
      (BadgeFormatText(count, singular, plural)[|DecimalString(count)| + 1..] == singular <==> count == 1)
    ensures BadgeFormatText(0, singular, plural) == "0 " + plural
  {
    DecimalStringDigits(count);
    var text, k := BadgeFormatText(count, singular, plural), |DecimalString(count)|;
    assert text[..k] == DecimalString(count);
    assert text[k + 1..] == (if count == 1 then singular else plural);
  }

  /** An instance is online when it was seen within the last hour; a
      missing `lastSeen` is offline. */
  predicate IsOnline(lastSeen: Option<int>, now: int)
  {
    lastSeen.Some? && lastSeen.value > now - OnlineWindow
  }

  /** `getOnlineInstacesCount`: the length of the filtered list. */
  function OnlineCount(instances: seq<Option<int>>, now: int): nat
  {
    if instances == [] then 0
    else (if IsOnline(instances[0], now) then 1 else 0) + OnlineCount(instances[1..], now)
  }

  /** `getOfflineInstacesCount`: the instances minus the online ones. */
  function OfflineCount(instances: seq<Option<int>>, now: int): int
  {
    |instances| - OnlineCount(instances, now)
  }

  /** The offline instances counted directly. */
  function CountOffline(instances: seq<Option<int>>, now: int): nat
  {
    if instances == [] then 0
    else (if IsOnline(instances[0], now) then 0 else 1) + CountOffline(instances[1..], now)
  }

  /** At one instant the online count is at most the number of instances,
      the offline count is the number of instances that are not online,
      and the two add up to the number of instances. */
  lemma {:induction false} CountsPartition(instances: seq<Option<int>>, now: int)
    ensures OnlineCount(instances, now) <= |instances|
    ensures OfflineCount(instances, now) == CountOffline(instances, now)
    ensures OnlineCount(instances, now) + OfflineCount(instances, now) == |instances|
  {
    if instances != [] {
      CountsPartition(instances[1..], now);
    }
  }

  /** The two badges read the clock separately; a later reading never
      counts more instances online, so the online badge and the offline
      badge together cover at least every instance. */
  lemma {:induction false} OnlineCountAntitone(instances: seq<Option<int>>, earlier: int, later: int)
    requires earlier <= later
    ensures OnlineCount(instances, later) <= OnlineCount(instances, earlier)
    ensures OnlineCount(instances, earlier) + OfflineCount(instances, later) >= |instances|
  {
    if instances != [] {
      OnlineCountAntitone(instances[1..], earlier, later);
    }
  }

  /** The offline badge is shown only when the offline count is positive. */
  function OfflineBadge(instances: seq<Option<int>>, now: int): Option<string>
  {
    var offline := OfflineCount(instances, now);
    if offline > 0 then Some(BadgeFormatText(offline, "Offline Instance", "Offline Instances")) else None
  }

  lemma OfflineBadgeShown(instances: seq<Option<int>>, now: int)
    ensures OfflineBadge(instances, now).Some? <==> exists i | 0 <= i < |instances| :: !IsOnline(instances[i], now)
  {
    CountsPartition(instances, now);
    OfflineWitness(instances, now);
  }

  lemma {:induction false} OfflineWitness(instances: seq<Option<int>>, now: int)
    ensures CountOffline(instances, now) > 0 <==> exists i | 0 <= i < |instances| :: !IsOnline(instances[i], now)
  {
    if instances != [] {
      OfflineWitness(instances[1..], now);
      if CountOffline(instances[1..], now) > 0 {
        var i :| 0 <= i < |instances[1..]| && !IsOnline(instances[1..][i], now);
        assert !IsOnline(instances[i + 1], now);
      }
      if exists i | 0 <= i < |instances| :: !IsOnline(instances[i], now) {
        var i :| 0 <= i < |instances| && !IsOnline(instances[i], now);
        if i > 0 {
          assert instances[1..][i - 1] == instances[i];
        }
      }
    }
  }

  // ---------------------------------------------------------------------
  // Themes

  datatype ThemeSummary = ThemeSummary(id: string, name: string, internal: bool, enabledFieldsCount: nat)

  /** `data.filter((theme) => !theme.internal)`. */
  function VisibleThemes(themes: seq<ThemeSummary>): (r: seq<ThemeSummary>)
    ensures forall t :: t in r <==> t in themes && !t.internal
    ensures |r| <= |themes|
  {
    if themes == [] then []
    else if themes[0].internal then VisibleThemes(themes[1..])
    else [themes[0]] + VisibleThemes(themes[1..])
  }

  /** The listing keeps the order of the themes. */
  lemma {:induction false} VisibleThemesConcat(a: seq<ThemeSummary>, b: seq<ThemeSummary>)
    ensures VisibleThemes(a + b) == VisibleThemes(a) + VisibleThemes(b)
  {
    if a == [] {
      assert a + b == b;
    } else {
      assert (a + b)[0] == a[0];
      assert (a + b)[1..] == a[1..] + b;
      VisibleThemesConcat(a[1..], b);
    }
  }
}
