/** The evolution ledger: connected time and consumed pollution, each charged under the
    policy in force when its interval began. Numbers are reals; rounding is not modelled. */
module Evolution {
  import opened Extrema
  import opened LuaValues

  // ---------------------------------------------------------------------------- the curve

  function FactorFromRaw(raw: real): (factor: real)
    ensures 0.0 <= factor < 1.0
  {
    if raw <= 0.0 then 0.0 else raw / (1.0 + raw)
  }

  function RawFromFactor(factor: real): (raw: real)
    ensures raw >= 0.0
  {
    if factor <= 0.0 then 0.0
    else if factor >= 1.0 then 999999999.0
    else
      PositiveQuotient(factor, 1.0 - factor);
      factor / (1.0 - factor)
  }

  lemma PositiveQuotient(a: real, b: real)
    requires a > 0.0 && b > 0.0
    ensures a / b > 0.0
  {
    var q := a / b;
    assert q * b == a;
    if q <= 0.0 {
      ProductsOrdered(-q, b);
    }
  }

  lemma ProductsOrdered(x: real, a: real)
    requires x >= 0.0 && a >= 0.0
    ensures x * a >= 0.0
  {
  }

  /** The two conversions undo each other on their ranges, and the factor grows with the raw value. */
  lemma CurveRoundTrips(raw: real, factor: real)
    ensures raw >= 0.0 ==> RawFromFactor(FactorFromRaw(raw)) == raw
    ensures 0.0 <= factor < 1.0 ==> FactorFromRaw(RawFromFactor(factor)) == factor
  {
    if raw > 0.0 {
      var f := raw / (1.0 + raw);
      assert 1.0 - f == 1.0 / (1.0 + raw);
      assert f / (1.0 - f) == raw by { QuotientIs(f, 1.0 - f, raw); }
    }
    if 0.0 < factor < 1.0 {
      var r := factor / (1.0 - factor);
      assert 1.0 + r == 1.0 / (1.0 - factor);
      assert r / (1.0 + r) == factor by { QuotientIs(r, 1.0 + r, factor); }
    }
  }

  /** The equations of the curve, and where it ends. */
  lemma CurveEquations(raw: real, factor: real)
    ensures raw >= 0.0 ==> FactorFromRaw(raw) * (1.0 + raw) == raw
    ensures 0.0 <= factor < 1.0 ==> RawFromFactor(factor) * (1.0 - factor) == factor
    ensures raw < 0.0 ==> FactorFromRaw(raw) == 0.0
    ensures factor < 0.0 ==> RawFromFactor(factor) == 0.0
    ensures factor >= 1.0 ==> RawFromFactor(factor) == 999999999.0
  {
  }

  lemma QuotientIs(a: real, b: real, q: real)
    requires b != 0.0 && a == q * b
    ensures a / b == q
  {
  }

  lemma ProductStrict(x: real, a: real)
    requires x > 0.0 && a > 0.0
    ensures x * a > 0.0
  {
  }

  lemma CurveIsMonotone(a: real, b: real)
    requires 0.0 <= a < b
    ensures FactorFromRaw(a) < FactorFromRaw(b)
  {
    assert FactorFromRaw(a) == 1.0 - 1.0 / (1.0 + a);
    assert FactorFromRaw(b) == 1.0 - 1.0 / (1.0 + b);
    var x, y := 1.0 / (1.0 + a), 1.0 / (1.0 + b);
    assert x * (1.0 + a) == 1.0 && y * (1.0 + b) == 1.0;
    PositiveQuotient(1.0, 1.0 + b);
    ProductStrict(y, b - a);
    assert y * (1.0 + b) == y * (1.0 + a) + y * (b - a);
    if x <= y {
      ProductsOrdered(y - x, 1.0 + a);
    }
  }

  // ----------------------------------------------------------------------- connected time

  /** The open interval, if a team was active at the last sync. A ledger written by an
      older version may lack the policy of its open interval. */
  datatype Time = Time(since: Option<int>, enabled: Option<bool>, coefficient: Option<real>, ticks: int, raw: real)

  datatype TimeSync = TimeSync(tick: int, active: bool, enabled: bool, coefficient: real)

  function Elapsed(from: int, to: int): int {
    if to > from then to - from else 0
  }

  function Charge(elapsed: int, coefficient: real, perMinute: real): real
    requires perMinute > 0.0
  {
    (elapsed as real / perMinute) * coefficient
  }

  function TimeAfter(l: Time, s: TimeSync, perMinute: real): Time
    requires perMinute > 0.0
  {
    var policy := if l.enabled.Some? then l.enabled.value else s.enabled;
    var coefficient := if l.coefficient.Some? then l.coefficient.value else s.coefficient;
    var elapsed := if l.since.Some? then Elapsed(l.since.value, s.tick) else 0;
    var ticks := l.ticks + elapsed;
    var raw := if l.since.Some? && policy then l.raw + Charge(elapsed, coefficient, perMinute) else l.raw;
    if s.active then Time(Some(s.tick), Some(s.enabled), Some(s.coefficient), ticks, raw)
    else Time(None, None, None, ticks, raw)
  }

  ghost function TimeRun(l: Time, syncs: seq<TimeSync>, perMinute: real): Time
    requires perMinute > 0.0
  {
    if syncs == [] then l else TimeAfter(TimeRun(l, syncs[..|syncs| - 1], perMinute), syncs[|syncs| - 1], perMinute)
  }

  /** What the interval between two neighbouring syncs is worth. */
  function Interval(a: TimeSync, b: TimeSync, perMinute: real): real
    requires perMinute > 0.0
  {
    if a.active && a.enabled && b.tick > a.tick then ((b.tick - a.tick) as real / perMinute) * a.coefficient else 0.0
  }

  function TotalCharge(syncs: seq<TimeSync>, perMinute: real): real
    requires perMinute > 0.0
  {
    if |syncs| < 2 then 0.0
    else TotalCharge(syncs[..|syncs| - 1], perMinute) + Interval(syncs[|syncs| - 2], syncs[|syncs| - 1], perMinute)
  }

  function ActiveTicks(syncs: seq<TimeSync>): int {
    if |syncs| < 2 then 0
    else
      ActiveTicks(syncs[..|syncs| - 1])
      + if syncs[|syncs| - 2].active && syncs[|syncs| - 1].tick > syncs[|syncs| - 2].tick
        then syncs[|syncs| - 1].tick - syncs[|syncs| - 2].tick else 0
  }

  /** The ledger as a sync leaves it. */
  ghost predicate OpenedBy(l: Time, s: TimeSync) {
    if s.active then l.since == Some(s.tick) && l.enabled == Some(s.enabled) && l.coefficient == Some(s.coefficient)
    else l.since == None && l.enabled == None && l.coefficient == None
  }

  lemma OneSync(l: Time, a: TimeSync, b: TimeSync, perMinute: real)
    requires perMinute > 0.0 && OpenedBy(l, a)
    ensures var next := TimeAfter(l, b, perMinute);
            && OpenedBy(next, b)
            && next.raw == l.raw + Interval(a, b, perMinute)
            && next.ticks == l.ticks + if a.active && b.tick > a.tick then b.tick - a.tick else 0
  {
  }

  lemma {:induction false} TimeBetweenSyncs(l: Time, syncs: seq<TimeSync>, perMinute: real)
    requires perMinute > 0.0 && syncs != [] && OpenedBy(l, syncs[0])
    ensures var last := TimeRun(l, syncs[1..], perMinute);
            && OpenedBy(last, syncs[|syncs| - 1])
            && last.raw == l.raw + TotalCharge(syncs, perMinute)
            && last.ticks == l.ticks + ActiveTicks(syncs)
  {
    if |syncs| > 1 {
      var init := syncs[..|syncs| - 1];
      TimeBetweenSyncs(l, init, perMinute);
      assert syncs[1..][..|syncs| - 2] == init[1..];
      OneSync(TimeRun(l, init[1..], perMinute), init[|init| - 1], syncs[|syncs| - 1], perMinute);
    }
  }

  /** What a stored ledger's own open interval is worth at the first sync: at the policy
      and coefficient recorded with it, or the sync's where an older version left none. */
  function Opening(l: Time, s: TimeSync, perMinute: real): real
    requires perMinute > 0.0
  {
    if l.since.None? || s.tick <= l.since.value || !(if l.enabled.Some? then l.enabled.value else s.enabled) then 0.0
    else
      ((s.tick - l.since.value) as real / perMinute) * (if l.coefficient.Some? then l.coefficient.value else s.coefficient)
  }

  /** From any stored ledger, over any run of syncs, the raw value grows by exactly what its
      open interval was worth and the sum, over the intervals whose start was active and
      enabled, of the elapsed minutes at the coefficient in force at that start; disabled
      time is never charged, not even later. */
  lemma TimeIsIntervalSum(l: Time, syncs: seq<TimeSync>, perMinute: real)
    requires perMinute > 0.0 && syncs != []
    ensures var last := TimeRun(l, syncs, perMinute);
            && OpenedBy(last, syncs[|syncs| - 1])
            && last.raw == l.raw + Opening(l, syncs[0], perMinute) + TotalCharge(syncs, perMinute)
            && last.ticks == l.ticks + ActiveTicks(syncs)
                             + if l.since.Some? && syncs[0].tick > l.since.value then syncs[0].tick - l.since.value else 0
  {
    assert syncs == [syncs[0]] + syncs[1..];
    TimeRunConcat(l, [syncs[0]], syncs[1..], perMinute);
    assert [syncs[0]][..0] == [];
    TimeBetweenSyncs(TimeAfter(l, syncs[0], perMinute), syncs, perMinute);
  }

  lemma ChargeSplits(a: int, t: int, b: int, coefficient: real, perMinute: real)
    requires perMinute > 0.0 && a <= t <= b
    ensures Charge(Elapsed(a, t), coefficient, perMinute) + Charge(Elapsed(t, b), coefficient, perMinute)
            == Charge(Elapsed(a, b), coefficient, perMinute)
  {
    var x, y := (t - a) as real / perMinute, (b - t) as real / perMinute;
    assert x + y == (b - a) as real / perMinute;
    assert x * coefficient + y * coefficient == (x + y) * coefficient;
  }

  /** An extra sync in between, under the parameters already in force, changes nothing. */
  lemma ExtraSyncIsInvisible(l: Time, a: TimeSync, tick: int, b: TimeSync, perMinute: real)
    requires perMinute > 0.0 && OpenedBy(l, a) && a.tick <= tick <= b.tick
    ensures TimeAfter(TimeAfter(l, a.(tick := tick), perMinute), b, perMinute) == TimeAfter(l, b, perMinute)
  {
    ChargeSplits(a.tick, tick, b.tick, a.coefficient, perMinute);
  }

  lemma {:induction false} TimeRunConcat(l: Time, first: seq<TimeSync>, second: seq<TimeSync>, perMinute: real)
    requires perMinute > 0.0
    ensures TimeRun(l, first + second, perMinute) == TimeRun(TimeRun(l, first, perMinute), second, perMinute)
  {
    if second == [] {
      assert first + second == first;
    } else {
      assert (first + second)[..|first + second| - 1] == first + second[..|second| - 1];
      TimeRunConcat(l, first, second[..|second| - 1], perMinute);
    }
  }

  lemma {:induction false} RunOpens(l: Time, syncs: seq<TimeSync>, perMinute: real)
    requires perMinute > 0.0 && syncs != []
    ensures OpenedBy(TimeRun(l, syncs, perMinute), syncs[|syncs| - 1])
  {
  }

  /** Syncing more often never changes the totals of a run. */
  lemma ExtraSyncInRun(l: Time, before: seq<TimeSync>, a: TimeSync, tick: int, b: TimeSync, after: seq<TimeSync>, perMinute: real)
    requires perMinute > 0.0 && a.tick <= tick <= b.tick
    ensures TimeRun(l, before + [a, a.(tick := tick), b] + after, perMinute) == TimeRun(l, before + [a, b] + after, perMinute)
  {
    var started := TimeRun(l, before + [a], perMinute);
    assert before + [a, a.(tick := tick), b] == before + [a] + [a.(tick := tick), b];
    assert before + [a, b] == before + [a] + [b];
    RunOpens(l, before + [a], perMinute);
    TimeRunConcat(l, before + [a], [a.(tick := tick), b], perMinute);
    TimeRunConcat(l, before + [a], [b], perMinute);
    TwoSyncs(started, a.(tick := tick), b, perMinute);
    ExtraSyncIsInvisible(started, a, tick, b, perMinute);
    TimeRunConcat(l, before + [a, a.(tick := tick), b], after, perMinute);
    TimeRunConcat(l, before + [a, b], after, perMinute);
  }

  lemma TwoSyncs(l: Time, x: TimeSync, y: TimeSync, perMinute: real)
    requires perMinute > 0.0
    ensures TimeRun(l, [x, y], perMinute) == TimeAfter(TimeAfter(l, x, perMinute), y, perMinute)
    ensures TimeRun(l, [y], perMinute) == TimeAfter(l, y, perMinute)
  {
    assert [x, y][..1] == [x] && [x][..0] == [] && [y][..0] == [];
    assert TimeRun(l, [x], perMinute) == TimeAfter(TimeRun(l, [], perMinute), x, perMinute);
  }

  // ------------------------------------------------------------------------------ pollution

  datatype Pollution = Pollution(cursor: Option<real>, enabled: Option<bool>, coefficient: Option<real>, units: real, raw: real)

  /** A sample of the cumulative counter, or the schema migration that forgets the cursor. */
  datatype PollutionStep =
    | Sample(total: real, affects: bool, enabled: bool, coefficient: real)
    | Rebaseline

  function Rebaselined(p: Pollution): Pollution {
    p.(cursor := None, units := 0.0, enabled := None, coefficient := None)
  }

  function PollutionAfter(p: Pollution, s: PollutionStep, maximum: real): Pollution {
    match s
    case Rebaseline => Rebaselined(p)
    case Sample(total, affects, enabled, coefficient) =>
      var policy := if p.enabled.Some? then p.enabled.value else enabled;
      var rate := if p.coefficient.Some? then p.coefficient.value else coefficient;
      var noted := p.(cursor := Some(total), enabled := Some(enabled), coefficient := Some(coefficient));
      if p.cursor.None? || total <= p.cursor.value then noted
      else
        var delta := total - p.cursor.value;
        var counted := noted.(units := Lesser(maximum, p.units + delta));
        if policy && affects then counted.(raw := Lesser(maximum, p.raw + delta * rate)) else counted
  }

  ghost function PollutionRun(p: Pollution, steps: seq<PollutionStep>, maximum: real): Pollution {
    if steps == [] then p else PollutionAfter(PollutionRun(p, steps[..|steps| - 1], maximum), steps[|steps| - 1], maximum)
  }

  /** What a sample charges, given the step just before it. */
  function Credit(previous: PollutionStep, s: PollutionStep): real {
    if previous.Sample? && s.Sample? && s.total > previous.total && previous.enabled && s.affects
    then (s.total - previous.total) * previous.coefficient
    else 0.0
  }

  function TotalCredit(steps: seq<PollutionStep>): real {
    if |steps| < 2 then 0.0
    else TotalCredit(steps[..|steps| - 1]) + Credit(steps[|steps| - 2], steps[|steps| - 1])
  }

  ghost predicate RatesNonNegative(steps: seq<PollutionStep>) {
    forall i | 0 <= i < |steps| && steps[i].Sample? :: steps[i].coefficient >= 0.0
  }

  ghost predicate NotedBy(p: Pollution, s: PollutionStep) {
    match s
    case Rebaseline => p.cursor == None && p.enabled == None && p.coefficient == None
    case Sample(total, _, enabled, coefficient) => p.cursor == Some(total) && p.enabled == Some(enabled) && p.coefficient == Some(coefficient)
  }

  lemma CreditNonNegative(previous: PollutionStep, s: PollutionStep)
    requires previous.Sample? ==> previous.coefficient >= 0.0
    ensures Credit(previous, s) >= 0.0
  {
  }

  lemma {:induction false} TotalCreditNonNegative(steps: seq<PollutionStep>)
    requires RatesNonNegative(steps)
    ensures TotalCredit(steps) >= 0.0
  {
    if |steps| >= 2 {
      TotalCreditNonNegative(steps[..|steps| - 1]);
      CreditNonNegative(steps[|steps| - 2], steps[|steps| - 1]);
    }
  }

  lemma OneStepCredits(p: Pollution, previous: PollutionStep, s: PollutionStep, maximum: real)
    requires NotedBy(p, previous) && p.raw <= maximum
    ensures NotedBy(PollutionAfter(p, s, maximum), s)
    ensures PollutionAfter(p, s, maximum).raw == Lesser(maximum, p.raw + Credit(previous, s))
  {
  }

  lemma {:induction false} PollutionBetweenSteps(p: Pollution, steps: seq<PollutionStep>, maximum: real)
    requires steps != [] && NotedBy(p, steps[0]) && RatesNonNegative(steps) && p.raw <= maximum
    ensures var last := PollutionRun(p, steps[1..], maximum);
            && NotedBy(last, steps[|steps| - 1])
            && last.raw == Lesser(maximum, p.raw + TotalCredit(steps))
  {
    if |steps| > 1 {
      var init := steps[..|steps| - 1];
      PollutionBetweenSteps(p, init, maximum);
      assert steps[1..][..|steps| - 2] == init[1..];
      OneStepCredits(PollutionRun(p, init[1..], maximum), init[|init| - 1], steps[|steps| - 1], maximum);
      CreditNonNegative(init[|init| - 1], steps[|steps| - 1]);
    }
  }

  lemma {:induction false} PollutionRunFrom(p: Pollution, steps: seq<PollutionStep>, maximum: real)
    requires steps != []
    ensures PollutionRun(p, steps, maximum) == PollutionRun(PollutionAfter(p, steps[0], maximum), steps[1..], maximum)
  {
    if |steps| == 1 {
      assert steps[..0] == [];
    } else {
      PollutionRunFrom(p, steps[..|steps| - 1], maximum);
      assert steps[..|steps| - 1][1..] == steps[1..][..|steps| - 2];
    }
  }

  /** What the first step charges against a stored ledger's own cursor: at the policy and
      coefficient recorded with it, or the sample's where an older version left none. */
  function FirstCredit(p: Pollution, s: PollutionStep): real {
    if s.Sample? && p.cursor.Some? && s.total > p.cursor.value && s.affects
       && (if p.enabled.Some? then p.enabled.value else s.enabled)
    then (s.total - p.cursor.value) * (if p.coefficient.Some? then p.coefficient.value else s.coefficient)
    else 0.0
  }

  /** From any stored ledger, through any run of samples, counter resets, policy changes and
      the migration, the raw value is the starting value plus what the first step charges
      plus every later delta at the previous sample's rate, saturated at the maximum. The
      first sample after a reset or a migration credits nothing. */
  lemma PollutionIsSaturatedSum(p: Pollution, steps: seq<PollutionStep>, maximum: real)
    requires steps != [] && RatesNonNegative(steps) && p.raw <= maximum
    requires p.coefficient.Some? ==> p.coefficient.value >= 0.0
    ensures var last := PollutionRun(p, steps, maximum);
            && NotedBy(last, steps[|steps| - 1])
            && FirstCredit(p, steps[0]) >= 0.0
            && var sum := p.raw + FirstCredit(p, steps[0]) + TotalCredit(steps);
               last.raw == if sum <= maximum then sum else maximum
  {
    var first := PollutionAfter(p, steps[0], maximum);
    PollutionRunFrom(p, steps, maximum);
    FirstCreditNonNegative(p, steps[0]);
    assert first.raw == Lesser(maximum, p.raw + FirstCredit(p, steps[0]));
    PollutionBetweenSteps(first, steps, maximum);
    TotalCreditNonNegative(steps);
  }

  lemma FirstCreditNonNegative(p: Pollution, s: PollutionStep)
    requires p.coefficient.Some? ==> p.coefficient.value >= 0.0
    requires s.Sample? ==> s.coefficient >= 0.0
    ensures FirstCredit(p, s) >= 0.0
  {
    if FirstCredit(p, s) != 0.0 {
      ProductsOrdered(s.total - p.cursor.value, if p.coefficient.Some? then p.coefficient.value else s.coefficient);
    }
  }

  /** How far the counter rose since the sample before. */
  function Rise(previous: PollutionStep, s: PollutionStep): real {
    if previous.Sample? && s.Sample? && s.total > previous.total then s.total - previous.total else 0.0
  }

  function TotalRise(steps: seq<PollutionStep>): real {
    if |steps| < 2 then 0.0
    else TotalRise(steps[..|steps| - 1]) + Rise(steps[|steps| - 2], steps[|steps| - 1])
  }

  lemma {:induction false} TotalRiseNonNegative(steps: seq<PollutionStep>)
    ensures TotalRise(steps) >= 0.0
  {
    if |steps| >= 2 {
      TotalRiseNonNegative(steps[..|steps| - 1]);
    }
  }

  /** The consumed units are counted whatever the policy: every rise of the counter since the
      ledger noted it, saturated at the maximum; only the migration starts over from zero. */
  lemma {:induction false} UnitsAreSaturatedSum(p: Pollution, steps: seq<PollutionStep>, maximum: real)
    requires steps != [] && NotedBy(p, steps[0]) && p.units <= maximum
    requires forall i | 0 <= i < |steps| :: steps[i].Sample?
    ensures var last, sum := PollutionRun(p, steps[1..], maximum), p.units + TotalRise(steps);
            && NotedBy(last, steps[|steps| - 1])
            && last.units == if sum <= maximum then sum else maximum
    ensures PollutionAfter(p, Rebaseline, maximum).units == 0.0 && PollutionAfter(p, Rebaseline, maximum).raw == p.raw
  {
    if |steps| > 1 {
      var init := steps[..|steps| - 1];
      UnitsAreSaturatedSum(p, init, maximum);
      TotalRiseNonNegative(init);
      assert steps[1..][..|steps| - 2] == init[1..];
    }
  }

  /** Evolution already credited never goes backwards, whatever comes next. */
  lemma CreditedNeverDecreases(p: Pollution, steps: seq<PollutionStep>, maximum: real)
    requires RatesNonNegative(steps) && p.raw <= maximum
    requires p.coefficient.Some? ==> p.coefficient.value >= 0.0
    ensures p.raw <= PollutionRun(p, steps, maximum).raw <= maximum
  {
    if steps != [] {
      PollutionIsSaturatedSum(p, steps, maximum);
      TotalCreditNonNegative(steps);
    }
  }

  // ----------------------------------------------------------------------------- the object

  class Ledger {
    var connectedSince: Option<int>
    var connectedEnabled: Option<bool>
    var connectedCoefficient: Option<real>
    var connectedTicks: int
    var rawTime: real
    var pollutionCursor: Option<real>
    var pollutionEnabled: Option<bool>
    var pollutionCoefficient: Option<real>
    var pollutionUnits: real
    var rawPollution: real

    ghost function TimeView(): Time
      reads this
    {
      Time(connectedSince, connectedEnabled, connectedCoefficient, connectedTicks, rawTime)
    }

    ghost function PollutionView(): Pollution
      reads this
    {
      Pollution(pollutionCursor, pollutionEnabled, pollutionCoefficient, pollutionUnits, rawPollution)
    }

    /** `sync_connected_time`. */
    method SyncConnectedTime(tick: int, active: bool, enabled: bool, coefficient: real, ticksPerMinute: real)
      requires ticksPerMinute > 0.0
      modifies this
      ensures TimeView() == TimeAfter(old(TimeView()), TimeSync(tick, active, enabled, coefficient), ticksPerMinute)
      ensures PollutionView() == old(PollutionView())
    {
      var previousPolicy := if connectedEnabled.None? then enabled else connectedEnabled.value;
      var previousCoefficient := if connectedCoefficient.None? then coefficient else connectedCoefficient.value;
      if connectedSince.Some? {
        var elapsed := if tick - connectedSince.value > 0 then tick - connectedSince.value else 0;
        connectedTicks := connectedTicks + elapsed;
        if previousPolicy {
          rawTime := rawTime + (elapsed as real / ticksPerMinute) * previousCoefficient;
        }
      }
      if active {
        connectedSince, connectedEnabled, connectedCoefficient := Some(tick), Some(enabled), Some(coefficient);
      } else {
        connectedSince, connectedEnabled, connectedCoefficient := None, None, None;
      }
    }

    /** `sync_pollution`. */
    method SyncPollution(total: real, affects: bool, enabled: bool, coefficient: real, maximum: real)
      modifies this
      ensures PollutionView() == PollutionAfter(old(PollutionView()), Sample(total, affects, enabled, coefficient), maximum)
      ensures TimeView() == old(TimeView())
    {
      var previous := pollutionCursor;
      var previousPolicy := if pollutionEnabled.None? then enabled else pollutionEnabled.value;
      var previousCoefficient := if pollutionCoefficient.None? then coefficient else pollutionCoefficient.value;
      pollutionCursor, pollutionEnabled, pollutionCoefficient := Some(total), Some(enabled), Some(coefficient);
      if previous.None? || total < previous.value {
        return;
      }
      var delta := total - previous.value;
      if delta <= 0.0 {
        return;
      }
      pollutionUnits := Lesser(maximum, pollutionUnits + delta);
      if previousPolicy && affects {
        rawPollution := Lesser(maximum, rawPollution + delta * previousCoefficient);
      }
    }

    /** One ledger's share of the schema-5 migration. */
    method Rebase()
      modifies this
      ensures PollutionView() == Rebaselined(old(PollutionView())) && TimeView() == old(TimeView())
    {
      pollutionCursor, pollutionUnits, pollutionEnabled, pollutionCoefficient := None, 0.0, None, None;
    }
  }

  type Surfaces = map<nat, Ledger?>

  ghost function LedgersOf(teams: map<nat, Surfaces>): set<Ledger> {
    set t, s | t in teams && s in teams[t] && teams[t][s] != null :: teams[t][s]
  }

  /** `migrate_pollution_statistics_semantics`: every ledger of every team surface is
      rebaselined, once the save is older than schema 5; credited evolution stays. */
  method MigratePollution(teams: map<nat, Surfaces>, previousSchema: int)
    modifies LedgersOf(teams)
    ensures previousSchema >= 5 ==> forall l | l in LedgersOf(teams) :: unchanged(l)
    ensures previousSchema < 5 ==>
              forall l: Ledger | l in LedgersOf(teams) ::
                l.PollutionView() == Pollution(None, None, None, 0.0, old(l.rawPollution)) && l.TimeView() == old(l.TimeView())
  {
    if previousSchema >= 5 {
      return;
    }
    var left := teams.Keys;
    ghost var all := LedgersOf(teams);
    ghost var done: set<Ledger> := {};
    while left != {}
      invariant left <= teams.Keys && done <= all
      invariant forall t, s | t in teams && t !in left && s in teams[t] && teams[t][s] != null :: teams[t][s] in done
      invariant MigratedSoFar(all, done)
      decreases left
    {
      var team :| team in left;
      var surfaces := teams[team].Keys;
      ghost var before := done;
      while surfaces != {}
        invariant surfaces <= teams[team].Keys && before <= done <= all
        invariant forall s | s in teams[team] && s !in surfaces && teams[team][s] != null :: teams[team][s] in done
        invariant MigratedSoFar(all, done)
        decreases surfaces
      {
        var surface :| surface in surfaces;
        var ledger := teams[team][surface];
        if ledger != null {
          assert ledger in all;
          ledger.Rebase();
          done := done + {ledger};
        }
        surfaces := surfaces - {surface};
      }
      left := left - {team};
    }
    assert done == all;
  }

  /** Each ledger of `all` is rebaselined if it is in `done`, else as it was. */
  twostate predicate MigratedSoFar(all: set<Ledger>, done: set<Ledger>)
    reads all
  {
    forall l: Ledger | l in all ::
      && l.PollutionView() == (if l in done then Rebaselined(old(l.PollutionView())) else old(l.PollutionView()))
      && l.TimeView() == old(l.TimeView())
  }
}
