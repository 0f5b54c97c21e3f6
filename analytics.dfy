/** The attendance analytics of js/calculations.js: the presence percentage,
    the office days still needed for the 60% target, the month-end
    projection, the suggestion for tomorrow and the alert level. Day counts
    are integers; ratios are exact rationals, and the 0.60 target is 3/5. */
module Analytics {

  /** `TARGET_PERCENTAGE`. */
  const Target: real := 0.6

  /** `Math.ceil(n * 0.60)`: the fewest office days that make 60% of n days. */
  function TargetOfficeDays(n: int): (t: int)
    ensures Target * n as real <= t as real < Target * n as real + 1.0
  {
    (3 * n + 4) / 5
  }

  /** `calculatePresencePercentage(officeDays, totalWorkingDays)`. */
  function PresencePercentage(officeDays: int, totalDays: int): (p: real)
    ensures totalDays == 0 ==> p == 0.0
    ensures totalDays != 0 ==> p * totalDays as real == officeDays as real
    ensures 0 <= officeDays <= totalDays ==> 0.0 <= p <= 1.0
  {
    if totalDays == 0 then 0.0 else
      UnitRatio(officeDays, totalDays);
      officeDays as real / totalDays as real
  }

  lemma UnitRatio(n: int, d: int)
    requires d != 0
    ensures (n as real / d as real) * d as real == n as real
    ensures 0 <= n <= d ==> 0.0 <= n as real / d as real <= 1.0
  {
  }

  /** The fields of `calculateRemainingOfficeDaysNeeded`. */
  datatype OfficeDaysNeeded = OfficeDaysNeeded(
    needed: int, targetTotal: int, remainingDays: int, possible: bool, surplus: int)

  /** `calculateRemainingOfficeDaysNeeded(currentOfficeDays, totalWorkingDays,
      daysAlreadyRegistered)`, where the total already excludes licenses. */
  function RemainingOfficeDaysNeeded(currentOfficeDays: int, totalWorkingDays: int, daysAlreadyRegistered: int)
    : (r: OfficeDaysNeeded)
    ensures Target * totalWorkingDays as real <= r.targetTotal as real < Target * totalWorkingDays as real + 1.0
    ensures r.surplus == currentOfficeDays - r.targetTotal
    ensures r.needed >= 0 && (r.needed == 0 <==> r.surplus >= 0)
    ensures r.surplus < 0 ==> r.needed == -r.surplus
    ensures r.remainingDays == totalWorkingDays - daysAlreadyRegistered
    ensures r.possible <==> currentOfficeDays + r.remainingDays >= r.targetTotal
  {
    var targetOfficeDays := TargetOfficeDays(totalWorkingDays);
    var neededOfficeDays := targetOfficeDays - currentOfficeDays;
    var remainingDays := totalWorkingDays - daysAlreadyRegistered;
    OfficeDaysNeeded(
      needed := if neededOfficeDays > 0 then neededOfficeDays else 0,
      targetTotal := targetOfficeDays,
      remainingDays := remainingDays,
      possible := neededOfficeDays <= remainingDays,
      surplus := currentOfficeDays - targetOfficeDays)
  }

  lemma RemainingOfficeDaysNeededExamples()
    ensures RemainingOfficeDaysNeeded(12, 20, 20) == OfficeDaysNeeded(0, 12, 0, true, 0)
    ensures RemainingOfficeDaysNeeded(0, 20, 0) == OfficeDaysNeeded(12, 12, 20, true, -12)
  {
  }

  /** `possible` compares the unclamped shortfall with the days left: with a
      surplus it can hold when no day is left at all, where comparing the
      clamped `needed` would not. */
  lemma PossibleUsesUnclampedShortfall()
    ensures var r := RemainingOfficeDaysNeeded(10, 5, 12);
            r.possible && r.needed == 0 && r.remainingDays == -7
  {
  }

  /** `Math.round(x)`: the nearest integer, halves rounded up. */
  function Round(x: real): (n: int)
    ensures n as real - 0.5 <= x < n as real + 0.5
  {
    (x + 0.5).Floor
  }

  /** What `projectFinalPercentage` returns: a ratio, or NaN when it divides
      0 by 0. */
  datatype Projection = Ratio(value: real) | NaN

  /** `projected >= 0.60` on a JavaScript number; false for NaN. */
  predicate MeetsTarget(p: Projection)
    ensures p == NaN ==> !MeetsTarget(p)
    ensures p.Ratio? ==> (MeetsTarget(p) <==> 5.0 * p.value >= 3.0)
  {
    p.Ratio? && p.value >= Target
  }

  /** The office days `projectFinalPercentage` expects by the end of the
      month: those made, plus the days left at the current office ratio,
      rounded. */
  function ProjectedOfficeDays(office: int, decided: int, remaining: int): (projected: int)
    requires decided != 0
    ensures remaining == 0 ==> projected == office
    ensures var share := remaining as real * (office as real / decided as real);
            (projected - office) as real - 0.5 <= share < (projected - office) as real + 0.5
  {
    var share := remaining as real * (office as real / decided as real);
    assert remaining == 0 ==> share == 0.0;
    office + Round(share)
  }

  /** With no day of either kind negative, the projected office days lie
      between those made and those made plus all the days left. */
  lemma {:induction false} ProjectedWithinDaysLeft(office: int, decided: int, remaining: int)
    requires 0 <= office <= decided && decided > 0 && 0 <= remaining
    ensures office <= ProjectedOfficeDays(office, decided, remaining) <= office + remaining
  {
    var ratio := office as real / decided as real;
    UnitRatio(office, decided);
    assert remaining as real * ratio <= remaining as real * 1.0;
    assert 0.0 <= remaining as real * ratio;
  }

  /** When the days left cancel the days decided, the projected office days
      are 0, so `projectFinalPercentage` divides 0 by 0. */
  lemma {:induction false} ShortfallCancels(office: int, decided: int)
    requires decided != 0
    ensures ProjectedOfficeDays(office, decided, -decided) == 0
  {
    UnitRatio(office, decided);
    assert (-decided) as real * (office as real / decided as real) == -(office as real);
  }

  /** `projectFinalPercentage(currentOfficeDays, currentRemoteDays,
      remainingDays)`: keep the current office ratio for the days left. */
  function ProjectFinalPercentage(currentOfficeDays: int, currentRemoteDays: int, remainingDays: int)
    : (p: Projection)
    ensures currentOfficeDays + currentRemoteDays == 0 ==> p == Ratio(Target)
    ensures p == NaN <==> currentOfficeDays + currentRemoteDays != 0
                          && currentOfficeDays + currentRemoteDays + remainingDays == 0
    ensures currentOfficeDays + currentRemoteDays != 0 && remainingDays == 0 ==>
              p == Ratio(PresencePercentage(currentOfficeDays, currentOfficeDays + currentRemoteDays))
    ensures currentOfficeDays >= 0 && currentRemoteDays >= 0 && remainingDays >= 0 ==>
              p.Ratio? && 0.0 <= p.value <= 1.0
  {
    var totalCurrentDays := currentOfficeDays + currentRemoteDays;
    if totalCurrentDays == 0 then Ratio(Target) else
      var projectedOfficeDays := ProjectedOfficeDays(currentOfficeDays, totalCurrentDays, remainingDays);
      var totalDays := totalCurrentDays + remainingDays;
      if totalDays == 0 then
        // the days left cancel the days decided, so the quotient is 0 / 0
        ShortfallCancels(currentOfficeDays, totalCurrentDays);
        NaN
      else
        if currentOfficeDays >= 0 && currentRemoteDays >= 0 && remainingDays >= 0 then
          ProjectedWithinDaysLeft(currentOfficeDays, totalCurrentDays, remainingDays);
          UnitRatio(projectedOfficeDays, totalDays);
          Ratio(projectedOfficeDays as real / totalDays as real)
        else
          Ratio(projectedOfficeDays as real / totalDays as real)
  }

  /** An integer whose ratio to d is at least 60% is at least the ceiling of 60% of d. */
  lemma RatioAtLeastTarget(n: int, d: int)
    requires d > 0 && n as real / d as real >= Target
    ensures n >= TargetOfficeDays(d)
  {
    var q := n as real / d as real;
    UnitRatio(n, d);
    ScaleAtLeast(q, Target, d as real);
    assert n as real >= Target * d as real;
    assert n as real > (TargetOfficeDays(d) - 1) as real;
  }

  lemma ScaleAtLeast(a: real, b: real, c: real)
    requires a >= b && c >= 0.0
    ensures a * c >= b * c
  {
    assert a * c - b * c == (a - b) * c;
  }

  /** When the days left are not negative, a projection that reaches 60%
      only comes with a target that can still be reached. */
  lemma {:induction false} ProjectionMeetingTargetIsReachable(office: int, remote: int, remaining: int)
    requires office >= 0 && remote >= 0 && remaining >= 0
    ensures MeetsTarget(ProjectFinalPercentage(office, remote, remaining)) ==>
              RemainingOfficeDaysNeeded(office, office + remote + remaining, office + remote).possible
  {
    var decided := office + remote;
    if decided > 0 && MeetsTarget(ProjectFinalPercentage(office, remote, remaining)) {
      var projected := ProjectedOfficeDays(office, decided, remaining);
      ProjectedWithinDaysLeft(office, decided, remaining);
      assert ProjectFinalPercentage(office, remote, remaining)
             == Ratio(projected as real / (decided + remaining) as real);
      RatioAtLeastTarget(projected, decided + remaining);
    }
  }

  /** The `suggestion` tag of `suggestTomorrow` ('none', 'remote', 'office',
      'any'); the reason texts are not modelled. */
  datatype Suggestion = SuggestNone | SuggestRemote | SuggestOffice | SuggestAny

  /** `suggestTomorrow(currentOfficeDays, currentRemoteDays, totalWorkingDays,
      licenseDays)`, branch for branch. */
  function SuggestTomorrow(currentOfficeDays: int, currentRemoteDays: int, totalWorkingDays: int, licenseDays: int)
    : (s: Suggestion)
    ensures var effective := totalWorkingDays - licenseDays;
            var remaining := effective - (currentOfficeDays + currentRemoteDays);
            var needed := TargetOfficeDays(effective) - currentOfficeDays;
            && (s == SuggestNone <==> remaining <= 0)
            && (s == SuggestRemote <==> remaining > 0 && needed <= 0)
            && (s == SuggestOffice <==> remaining > 0 && needed > 0 && remaining - needed <= 2)
            && (s == SuggestAny <==> remaining > 0 && needed > 0 && remaining - needed >= 3)
  {
    var effectiveWorkingDays := totalWorkingDays - licenseDays;
    var daysRegistered := currentOfficeDays + currentRemoteDays;
    var remainingDays := effectiveWorkingDays - daysRegistered;
    if remainingDays <= 0 then SuggestNone else
      var targetOfficeDays := TargetOfficeDays(effectiveWorkingDays);
      var neededOfficeDays := targetOfficeDays - currentOfficeDays;
      if neededOfficeDays <= 0 then SuggestRemote
      else if neededOfficeDays >= remainingDays then SuggestOffice
      else
        var margin := remainingDays - neededOfficeDays;
        if margin <= 2 then SuggestOffice else SuggestAny
  }

  lemma SuggestTomorrowExamples()
    ensures SuggestTomorrow(0, 0, 20, 0) == SuggestAny
    ensures SuggestTomorrow(10, 8, 20, 0) == SuggestOffice
  {
  }

  /** The 60% target can still be met: it is met if every day left is spent
      at the office. */
  predicate Reachable(office: int, remote: int, totalWorkingDays: int, licenseDays: int)
  {
    totalWorkingDays - licenseDays - remote >= TargetOfficeDays(totalWorkingDays - licenseDays)
  }

  /** Registering tomorrow as the suggestion says keeps a reachable target
      reachable. `Reachable` counts only the remote days, so going to the
      office never costs reachability; the content is that staying home
      after 'remote' or 'any' keeps it. */
  lemma SuggestionKeepsTargetReachable(office: int, remote: int, totalWorkingDays: int, licenseDays: int)
    requires Reachable(office, remote, totalWorkingDays, licenseDays)
    ensures var s := SuggestTomorrow(office, remote, totalWorkingDays, licenseDays);
            && (s != SuggestNone ==> Reachable(office + 1, remote, totalWorkingDays, licenseDays))
            && (s == SuggestRemote || s == SuggestAny ==> Reachable(office, remote + 1, totalWorkingDays, licenseDays))
  {
  }

  /** The office days after registering the days of `plan`, in order:
      `true` for a day at the office, `false` for a day at home. */
  function OfficeAfter(office: int, plan: seq<bool>): int
    decreases |plan|
  {
    if plan == [] then office else OfficeAfter(if plan[0] then office + 1 else office, plan[1..])
  }

  /** Every day of `plan` goes to the office whenever that day's suggestion
      is 'office'. */
  predicate HeedsSuggestions(office: int, remote: int, totalWorkingDays: int, licenseDays: int, plan: seq<bool>)
    decreases |plan|
  {
    plan == [] ||
    ((SuggestTomorrow(office, remote, totalWorkingDays, licenseDays) == SuggestOffice ==> plan[0]) &&
     HeedsSuggestions(if plan[0] then office + 1 else office, if plan[0] then remote else remote + 1,
                      totalWorkingDays, licenseDays, plan[1..]))
  }

  /** From a month whose target is still reachable, registering every day
      left while heeding the 'office' suggestions ends the month at 60% or
      more of the effective working days. */
  lemma {:induction false} HeedingSuggestionsMeetsTarget(
    office: int, remote: int, totalWorkingDays: int, licenseDays: int, plan: seq<bool>)
    requires Reachable(office, remote, totalWorkingDays, licenseDays)
    requires HeedsSuggestions(office, remote, totalWorkingDays, licenseDays, plan)
    requires |plan| == totalWorkingDays - licenseDays - office - remote
    ensures OfficeAfter(office, plan) >= TargetOfficeDays(totalWorkingDays - licenseDays)
    ensures OfficeAfter(office, plan) as real >= Target * (totalWorkingDays - licenseDays) as real
    decreases |plan|
  {
    if plan != [] {
      var atOffice := plan[0];
      SuggestionKeepsTargetReachable(office, remote, totalWorkingDays, licenseDays);
      HeedingSuggestionsMeetsTarget(
        if atOffice then office + 1 else office, if atOffice then remote else remote + 1,
        totalWorkingDays, licenseDays, plan[1..]);
    }
  }

  /** The suggestion and the needed-days record agree when fed the inputs
      `renderDashboard` gives them. */
  lemma SuggestionAgreesWithNeeded(office: int, remote: int, totalWorkingDays: int, licenseDays: int)
    ensures var r := RemainingOfficeDaysNeeded(office, totalWorkingDays - licenseDays, office + remote);
            var s := SuggestTomorrow(office, remote, totalWorkingDays, licenseDays);
            && (s == SuggestNone <==> r.remainingDays <= 0)
            && (s == SuggestRemote <==> r.remainingDays > 0 && r.needed == 0)
            && (s == SuggestAny ==> r.possible)
            && (s != SuggestNone && !r.possible ==> s == SuggestOffice)
  {
  }

  /** The alert level of `getAlertStatus`. */
  datatype AlertLevel = Success | Warning | Danger

  /** `getAlertStatus(currentPercentage, projectedPercentage, canStillReachTarget)`. */
  function GetAlertStatus(currentPercentage: real, projected: Projection, canStillReachTarget: bool)
    : (a: AlertLevel)
    ensures currentPercentage >= Target ==> a == Success
    ensures a == Success <==> currentPercentage >= Target || (MeetsTarget(projected) && canStillReachTarget)
    ensures a == Danger <==> currentPercentage < Target && !canStillReachTarget
    ensures a == Warning <==> currentPercentage < Target && canStillReachTarget && !MeetsTarget(projected)
  {
    if currentPercentage >= Target then Success
    else if MeetsTarget(projected) && canStillReachTarget then Success
    else if canStillReachTarget then Warning
    else Danger
  }
}
