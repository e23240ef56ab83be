/** The pairing guard: a sliding window over forwarded failures under a clock that may
    jump either way, and a bounded table of per-address attempts. */
module PairGuard {
  import opened Extrema
  import opened LuaValues
  import opened OrderedMaps

  datatype Limits = Limits(maxFailures: int, failureWindow: int, maxAttempts: int, attemptWindow: int, maxAddresses: int)

  datatype Verdict = Allow | AddressThrottled | Shedding

  type Attempts = seq<Pair<string, seq<int>>>

  datatype State = State(failures: seq<int>, attempts: Attempts)

  /** `withinWindow`: future stamps are clamped to now, old ones dropped. */
  function WithinWindow(stamps: seq<int>, now: int, window: int): seq<int> {
    if stamps == [] then []
    else
      var before, stamp := WithinWindow(stamps[..|stamps| - 1], now, window), Min(stamps[|stamps| - 1], now);
      if stamp > now - window then before + [stamp] else before
  }

  function Booked(attempts: Attempts, address: string, now: int, window: int): seq<int> {
    var stamps := Lookup(attempts, address);
    WithinWindow(if stamps.Some? then stamps.value else [], now, window)
  }

  /** The first loop of `evictStale`: entries refreshed in place, empty ones dropped. */
  function Refreshed(attempts: Attempts, now: int, window: int): Attempts {
    if attempts == [] then []
    else
      var rest, live := Refreshed(attempts[1..], now, window), WithinWindow(attempts[0].value, now, window);
      if live == [] then rest else [Pair(attempts[0].key, live)] + rest
  }

  function DropOldest(attempts: Attempts, size: int): Attempts {
    if |attempts| <= size || attempts == [] then attempts else DropOldest(attempts[1..], size)
  }

  function Evicted(attempts: Attempts, now: int, limits: Limits): Attempts {
    if |attempts| <= limits.maxAddresses then attempts
    else DropOldest(Refreshed(attempts, now, limits.attemptWindow), limits.maxAddresses)
  }

  function AdmitVerdict(s: State, address: string, now: int, limits: Limits): Verdict {
    if |WithinWindow(s.failures, now, limits.failureWindow)| >= limits.maxFailures then Shedding
    else if |Booked(s.attempts, address, now, limits.attemptWindow)| >= limits.maxAttempts then AddressThrottled
    else Allow
  }

  function Admitted(s: State, address: string, now: int, limits: Limits): State {
    var failures := WithinWindow(s.failures, now, limits.failureWindow);
    var booked := Booked(s.attempts, address, now, limits.attemptWindow);
    match AdmitVerdict(s, address, now, limits)
    case Shedding => State(failures, s.attempts)
    case AddressThrottled => State(failures, Set(s.attempts, address, booked))
    case Allow => State(failures, Evicted(Set(s.attempts, address, booked + [now]), now, limits))
  }

  function FailureRecorded(s: State, now: int, limits: Limits): State {
    s.(failures := WithinWindow(s.failures, now, limits.failureWindow) + [now])
  }

  function SuccessRecorded(s: State, address: string): State {
    s.(attempts := Delete(s.attempts, address))
  }

  // ------------------------------------------------------------------------ the window

  ghost predicate Sorted(stamps: seq<int>) {
    forall i, j | 0 <= i < j < |stamps| :: stamps[i] <= stamps[j]
  }

  function Clamped(stamps: seq<int>, now: int): (clamped: seq<int>)
    ensures |clamped| == |stamps| && forall i | 0 <= i < |stamps| :: clamped[i] == Min(stamps[i], now)
  {
    seq(|stamps|, i requires 0 <= i < |stamps| => Min(stamps[i], now))
  }

  /** `kept` is a suffix of `stamps`, clamped to now and live, and only dead stamps lie before it. */
  ghost predicate FrontExpired(stamps: seq<int>, kept: seq<int>, now: int, window: int) {
    && |kept| <= |stamps|
    && kept == Clamped(stamps[|stamps| - |kept|..], now)
    && (forall i | 0 <= i < |kept| :: kept[i] > now - window)
    && (forall i | 0 <= i < |stamps| - |kept| :: Min(stamps[i], now) <= now - window)
  }

  lemma KeptAreOlder(init: seq<int>, last: int, before: seq<int>, now: int, window: int)
    requires Sorted(init + [last]) && FrontExpired(init, before, now, window)
    ensures forall i | 0 <= i < |before| :: before[i] <= Min(last, now)
  {
    var stamps, dropped := init + [last], |init| - |before|;
    forall i | 0 <= i < |before| ensures before[i] <= Min(last, now) {
      assert stamps[dropped + i] <= stamps[|init|] && before[i] == Min(init[dropped..][i], now);
    }
  }

  lemma StampJoins(init: seq<int>, last: int, before: seq<int>, now: int, window: int)
    requires FrontExpired(init, before, now, window) && Min(last, now) > now - window
    ensures FrontExpired(init + [last], before + [Min(last, now)], now, window)
  {
    var stamps, dropped := init + [last], |init| - |before|;
    assert stamps[dropped..] == init[dropped..] + [last];
    assert forall i | 0 <= i < dropped :: stamps[i] == init[i];
  }

  lemma StampIsDead(init: seq<int>, last: int, now: int, window: int)
    requires FrontExpired(init, [], now, window) && Min(last, now) <= now - window
    ensures FrontExpired(init + [last], [], now, window)
  {
    assert forall i | 0 <= i < |init| :: (init + [last])[i] == init[i];
  }

  lemma FrontExpiredStep(init: seq<int>, last: int, before: seq<int>, now: int, window: int)
    requires Sorted(init + [last]) && FrontExpired(init, before, now, window)
    ensures FrontExpired(init + [last], if Min(last, now) > now - window then before + [Min(last, now)] else before, now, window)
  {
    KeptAreOlder(init, last, before, now, window);
    assert before != [] ==> now - window < before[0] <= Min(last, now);
    if Min(last, now) > now - window {
      StampJoins(init, last, before, now, window);
    } else {
      StampIsDead(init, last, now, window);
    }
  }

  lemma FrontExpiredIsSorted(stamps: seq<int>, kept: seq<int>, now: int, window: int)
    requires Sorted(stamps) && FrontExpired(stamps, kept, now, window)
    ensures Sorted(kept) && forall i | 0 <= i < |kept| :: now - window < kept[i] <= now
  {
    var dropped := |stamps| - |kept|;
    forall i, j | 0 <= i < j < |kept| ensures kept[i] <= kept[j] {
      assert stamps[dropped..][i] <= stamps[dropped..][j];
    }
  }

  /** On sorted stamps the window only ever drops from the front. */
  lemma {:induction false} ExpiresFromFront(stamps: seq<int>, now: int, window: int)
    requires Sorted(stamps)
    ensures Sorted(WithinWindow(stamps, now, window))
    ensures forall i | 0 <= i < |WithinWindow(stamps, now, window)| :: now - window < WithinWindow(stamps, now, window)[i] <= now
    ensures FrontExpired(stamps, WithinWindow(stamps, now, window), now, window)
  {
    if stamps != [] {
      var init, last := stamps[..|stamps| - 1], stamps[|stamps| - 1];
      ExpiresFromFront(init, now, window);
      assert stamps == init + [last];
      FrontExpiredStep(init, last, WithinWindow(init, now, window), now, window);
    }
    FrontExpiredIsSorted(stamps, WithinWindow(stamps, now, window), now, window);
  }

  // -------------------------------------------------------------------------- whole runs

  /** One thing that happens to the guard; `Dropped` is an attempt that ends without
      having been forwarded. */
  datatype Call = Admit(address: string, now: int) | Failure(now: int) | Success(address: string) | Dropped

  function After(s: State, call: Call, limits: Limits): State {
    match call
    case Admit(address, now) => Admitted(s, address, now, limits)
    case Failure(now) => FailureRecorded(s, now, limits)
    case Success(address) => SuccessRecorded(s, address)
    case Dropped => s
  }

  ghost function StateAfter(calls: seq<Call>, limits: Limits): State {
    if calls == [] then State([], []) else After(StateAfter(calls[..|calls| - 1], limits), calls[|calls| - 1], limits)
  }

  /** Attempts that were let through and have not ended yet. */
  ghost function InFlight(calls: seq<Call>, limits: Limits): int {
    if calls == [] then 0
    else
      var init, last := calls[..|calls| - 1], calls[|calls| - 1];
      InFlight(init, limits)
      + if last.Admit? then (if AdmitVerdict(StateAfter(init, limits), last.address, last.now, limits).Allow? then 1 else 0) else -1
  }

  /** Every ending belongs to an attempt, and at most `width` attempts overlap. */
  ghost predicate Overlap(calls: seq<Call>, limits: Limits, width: nat) {
    forall n | 0 <= n <= |calls| :: 0 <= InFlight(calls[..n], limits) <= width
  }

  /** Lowest clock reading among the calls from the failure at `p` up to, not including, `n`. */
  ghost function Lowest(calls: seq<Call>, p: nat, n: nat): int
    requires p < n <= |calls| && calls[p].Failure?
    decreases n
  {
    if n == p + 1 then calls[p].now
    else
      var before := Lowest(calls, p, n - 1);
      if calls[n - 1].Admit? || calls[n - 1].Failure? then Min(before, calls[n - 1].now) else before
  }

  /** Some later call, before `n`, read a clock a full window above the lowest reading
      since the failure at `p`. */
  ghost predicate Lapsed(calls: seq<Call>, p: nat, n: nat, window: int)
    requires p < n <= |calls| && calls[p].Failure?
  {
    exists q :: p < q < n && (calls[q].Admit? || calls[q].Failure?) && calls[q].now >= window + Lowest(calls, p, q + 1)
  }

  /** What the window must hold after `n` calls for the failures before `p`. */
  ghost function Live(calls: seq<Call>, n: nat, p: nat, window: int): seq<int>
    requires p <= n <= |calls|
    decreases p
  {
    if p == 0 then []
    else
      var before := Live(calls, n, p - 1, window);
      if calls[p - 1].Failure? && !Lapsed(calls, p - 1, n, window) then before + [Lowest(calls, p - 1, n)] else before
  }

  lemma {:induction false} LiveStep(calls: seq<Call>, n: nat, p: nat, window: int)
    requires p <= n < |calls|
    ensures calls[n].Admit? || calls[n].Failure? ==>
              Live(calls, n + 1, p, window) == WithinWindow(Live(calls, n, p, window), calls[n].now, window)
    ensures calls[n].Success? || calls[n].Dropped? ==> Live(calls, n + 1, p, window) == Live(calls, n, p, window)
    decreases p
  {
    if p > 0 {
      LiveStep(calls, n, p - 1, window);
      if calls[p - 1].Failure? {
        LapsedStep(calls, p - 1, n, window);
        var before := Live(calls, n, p - 1, window);
        if !Lapsed(calls, p - 1, n, window) {
          assert (before + [Lowest(calls, p - 1, n)])[..|before|] == before;
        }
      }
    }
  }

  lemma LapsedStep(calls: seq<Call>, p: nat, n: nat, window: int)
    requires p < n < |calls| && calls[p].Failure?
    ensures Lapsed(calls, p, n + 1, window) <==>
            || Lapsed(calls, p, n, window)
            || ((calls[n].Admit? || calls[n].Failure?) && calls[n].now >= window + Lowest(calls, p, n + 1))
  {
  }

  /** The stored failures are exactly those whose window has not lapsed, each at the lowest
      reading since it was recorded. */
  lemma {:induction false} FailuresAreLive(calls: seq<Call>, n: nat, limits: Limits)
    requires n <= |calls|
    ensures StateAfter(calls[..n], limits).failures == Live(calls, n, n, limits.failureWindow)
    decreases n
  {
    if n > 0 {
      assert calls[..n][..n - 1] == calls[..n - 1];
      FailuresAreLive(calls, n - 1, limits);
      LiveStep(calls, n - 1, n - 1, limits.failureWindow);
    }
  }

  /** Overlapping attempts can overshoot the cap by at most the overlap. */
  lemma {:induction false} WindowStaysBounded(calls: seq<Call>, n: nat, limits: Limits, width: nat)
    requires Overlap(calls, limits, width) && limits.maxFailures >= 1 && width >= 1 && n <= |calls|
    ensures |StateAfter(calls[..n], limits).failures| + InFlight(calls[..n], limits) <= limits.maxFailures - 1 + width
    decreases n
  {
    if n > 0 {
      assert calls[..n][..n - 1] == calls[..n - 1];
      WindowStaysBounded(calls, n - 1, limits, width);
      assert 0 <= InFlight(calls[..n], limits) <= width;
      var before := StateAfter(calls[..n - 1], limits);
      if calls[n - 1].Admit? || calls[n - 1].Failure? {
        WindowShrinks(before.failures, calls[n - 1].now, limits.failureWindow);
      }
    }
  }

  lemma {:induction false} WindowShrinks(stamps: seq<int>, now: int, window: int)
    ensures |WithinWindow(stamps, now, window)| <= |stamps|
  {
    if stamps != [] {
      WindowShrinks(stamps[..|stamps| - 1], now, window);
    }
  }

  ghost function FailureCount(calls: seq<Call>, p: nat, n: nat): nat
    requires p <= n <= |calls|
    decreases n
  {
    if n == p then 0 else FailureCount(calls, p, n - 1) + if calls[n - 1].Failure? then 1 else 0
  }

  lemma {:induction false} LowestIsLower(calls: seq<Call>, p: nat, q: nat, n: nat)
    requires p <= q < n <= |calls| && calls[p].Failure? && calls[q].Failure?
    ensures Lowest(calls, p, n) <= Lowest(calls, q, n)
    decreases n
  {
    if n > q + 1 {
      LowestIsLower(calls, p, q, n - 1);
    }
  }

  /** A later failure never lapses before an earlier one. */
  lemma EarlierLapsesFirst(calls: seq<Call>, p: nat, q: nat, n: nat, window: int)
    requires p <= q < n <= |calls| && calls[p].Failure? && calls[q].Failure? && Lapsed(calls, q, n, window)
    ensures Lapsed(calls, p, n, window)
  {
    var j :| q < j < n && (calls[j].Admit? || calls[j].Failure?) && calls[j].now >= window + Lowest(calls, q, j + 1);
    LowestIsLower(calls, p, q, j + 1);
  }

  lemma {:induction false} LiveCountsFailures(calls: seq<Call>, p: nat, m: nat, n: nat, window: int)
    requires p < n <= |calls| && calls[p].Failure? && !Lapsed(calls, p, n, window) && p <= m <= n
    ensures |Live(calls, n, m, window)| >= FailureCount(calls, p, m)
    decreases m
  {
    if m > p {
      LiveCountsFailures(calls, p, m - 1, n, window);
      if calls[m - 1].Failure? && Lapsed(calls, m - 1, n, window) {
        EarlierLapsesFirst(calls, p, m - 1, n, window);
      }
    }
  }

  /** The cap holds under any clock: with at most `width` attempts overlapping, among any
      `maxFailures + width` recorded failures some call after the first, up to the last,
      reads a clock at least a window above the lowest reading since the first. Sequential
      use is `width == 1`. */
  lemma FailuresSpanAWindow(calls: seq<Call>, p: nat, n: nat, limits: Limits, width: nat)
    requires Overlap(calls, limits, width) && limits.maxFailures >= 1 && width >= 1
    requires p < n <= |calls| && calls[p].Failure?
    requires FailureCount(calls, p, n) >= limits.maxFailures + width
    ensures Lapsed(calls, p, n, limits.failureWindow)
  {
    FailuresAreLive(calls, n, limits);
    WindowStaysBounded(calls, n, limits, width);
    assert 0 <= InFlight(calls[..n], limits);
    if !Lapsed(calls, p, n, limits.failureWindow) {
      LiveCountsFailures(calls, p, n, n, limits.failureWindow);
    }
  }

  /** With the shipped limits and sequential attempts: among any six recorded failures some
      call reads a clock at least a minute above the lowest reading since the first. */
  lemma SixFailuresSpanAMinute(calls: seq<Call>, p: nat, n: nat)
    requires Overlap(calls, Limits(5, 60_000, 5, 600_000, 1_024), 1)
    requires p < n <= |calls| && calls[p].Failure? && FailureCount(calls, p, n) >= 6
    ensures Lapsed(calls, p, n, 60_000)
  {
    FailuresSpanAWindow(calls, p, n, Limits(5, 60_000, 5, 600_000, 1_024), 1);
  }

  ghost predicate ClockAdvances(calls: seq<Call>) {
    forall i, j | 0 <= i < j < |calls| && (calls[i].Admit? || calls[i].Failure?) && (calls[j].Admit? || calls[j].Failure?) ::
      calls[i].now <= calls[j].now
  }

  lemma {:induction false} LowestUnderAdvancingClock(calls: seq<Call>, p: nat, n: nat)
    requires ClockAdvances(calls) && p < n <= |calls| && calls[p].Failure?
    ensures Lowest(calls, p, n) == calls[p].now
    decreases n
  {
    if n > p + 1 {
      LowestUnderAdvancingClock(calls, p, n - 1);
    }
  }

  /** Under a clock that never steps back, sequential attempts forward at most
      `maxFailures` failures in any window: the last of one more comes a full window
      after the first. */
  lemma AtMostMaxFailuresPerWindow(calls: seq<Call>, p: nat, r: nat, limits: Limits)
    requires Overlap(calls, limits, 1) && limits.maxFailures >= 1 && ClockAdvances(calls)
    requires p < r < |calls| && calls[p].Failure? && calls[r].Failure?
    requires FailureCount(calls, p, r + 1) == limits.maxFailures + 1
    ensures calls[r].now - calls[p].now >= limits.failureWindow
  {
    FailuresSpanAWindow(calls, p, r + 1, limits, 1);
    var q :| p < q < r + 1 && (calls[q].Admit? || calls[q].Failure?)
             && calls[q].now >= limits.failureWindow + Lowest(calls, p, q + 1);
    LowestUnderAdvancingClock(calls, p, q + 1);
  }

  // ---------------------------------------------------------------------------- one admission

  /** How many stamps are younger than the window, those of the future counted as now. */
  function YoungerCount(stamps: seq<int>, now: int, window: int): nat {
    if stamps == [] then 0
    else
      (if (if stamps[0] < now then stamps[0] else now) > now - window then 1 else 0) + YoungerCount(stamps[1..], now, window)
  }

  lemma {:induction false} WindowAppend(stamps: seq<int>, more: seq<int>, now: int, window: int)
    ensures WithinWindow(stamps + more, now, window) == WithinWindow(stamps, now, window) + WithinWindow(more, now, window)
  {
    if more == [] {
      assert stamps + more == stamps;
    } else {
      assert (stamps + more)[..|stamps + more| - 1] == stamps + more[..|more| - 1];
      WindowAppend(stamps, more[..|more| - 1], now, window);
    }
  }

  lemma {:induction false} WindowCounts(stamps: seq<int>, now: int, window: int)
    ensures |WithinWindow(stamps, now, window)| == YoungerCount(stamps, now, window)
  {
    if stamps != [] {
      assert stamps == [stamps[0]] + stamps[1..];
      WindowAppend([stamps[0]], stamps[1..], now, window);
      WindowCounts(stamps[1..], now, window);
      assert [stamps[0]][..0] == [];
    }
  }

  function StampsOf(s: State, address: string): seq<int> {
    var stamps := Lookup(s.attempts, address);
    if stamps.Some? then stamps.value else []
  }

  /** An attempt is shed exactly while the cap of failures is reached in the window, throttled
      exactly while its address has used up its attempts, and let through otherwise; only an
      attempt let through is booked, once, and the failures are never booked here. */
  lemma AdmitExactly(s: State, address: string, now: int, limits: Limits)
    ensures var verdict := AdmitVerdict(s, address, now, limits);
            && (verdict == Shedding <==> YoungerCount(s.failures, now, limits.failureWindow) >= limits.maxFailures)
            && (verdict == AddressThrottled <==>
                  && YoungerCount(s.failures, now, limits.failureWindow) < limits.maxFailures
                  && YoungerCount(StampsOf(s, address), now, limits.attemptWindow) >= limits.maxAttempts)
    ensures var after := Admitted(s, address, now, limits);
            && |after.failures| == YoungerCount(s.failures, now, limits.failureWindow)
            && (AdmitVerdict(s, address, now, limits) == Shedding ==> after.attempts == s.attempts)
            && (AdmitVerdict(s, address, now, limits) == AddressThrottled ==>
                  |StampsOf(after, address)| == YoungerCount(StampsOf(s, address), now, limits.attemptWindow))
  {
    WindowCounts(s.failures, now, limits.failureWindow);
    WindowCounts(StampsOf(s, address), now, limits.attemptWindow);
    var booked := Booked(s.attempts, address, now, limits.attemptWindow);
    SetLookup(s.attempts, address, booked, address);
  }

  /** While the table has room, an attempt let through is booked once, at the reading of the
      clock, behind the younger ones of its address, and no other address is touched. */
  lemma AllowedIsBooked(s: State, address: string, now: int, limits: Limits, other: string)
    requires AdmitVerdict(s, address, now, limits) == Allow && |s.attempts| < limits.maxAddresses
    ensures var after, before := Admitted(s, address, now, limits), StampsOf(s, address);
            && |StampsOf(after, address)| == YoungerCount(before, now, limits.attemptWindow) + 1
            && StampsOf(after, address)[|StampsOf(after, address)| - 1] == now
            && (other != address ==> StampsOf(after, other) == StampsOf(s, other))
  {
    var booked := Booked(s.attempts, address, now, limits.attemptWindow);
    WindowCounts(StampsOf(s, address), now, limits.attemptWindow);
    SetElements(s.attempts, address, booked + [now]);
    SetLookup(s.attempts, address, booked + [now], address);
    SetLookup(s.attempts, address, booked + [now], other);
  }

  /** A success frees its address and nothing else; a failure is booked once, behind the
      younger ones, and touches no address. */
  lemma OutcomesAreBooked(s: State, address: string, now: int, limits: Limits, other: string)
    requires Unique(s.attempts)
    ensures var freed := SuccessRecorded(s, address);
            freed.failures == s.failures && StampsOf(freed, other) == if other == address then [] else StampsOf(s, other)
    ensures var failed := FailureRecorded(s, now, limits);
            && failed.attempts == s.attempts
            && |failed.failures| == YoungerCount(s.failures, now, limits.failureWindow) + 1
            && failed.failures[|failed.failures| - 1] == now
  {
    DeleteFacts(s.attempts, address);
    WindowCounts(s.failures, now, limits.failureWindow);
  }

  /** Refreshing the table keeps of every address its younger stamps, and forgets it when
      there are none. */
  lemma {:induction false} RefreshedStamps(attempts: Attempts, now: int, window: int, address: string)
    requires Unique(attempts)
    ensures var stamps := Lookup(attempts, address);
            Lookup(Refreshed(attempts, now, window), address)
            == if stamps.None? || YoungerCount(stamps.value, now, window) == 0 then None else Some(WithinWindow(stamps.value, now, window))
  {
    if attempts != [] {
      var first, rest := attempts[0], attempts[1..];
      assert forall i | 0 <= i < |rest| :: rest[i] == attempts[i + 1];
      RefreshedStamps(rest, now, window, address);
      WindowCounts(first.value, now, window);
      if first.key == address {
        LookupFinds(rest, address);
      }
      var refreshed := Refreshed(rest, now, window);
      assert ([Pair(first.key, WithinWindow(first.value, now, window))] + refreshed)[1..] == refreshed;
    }
  }

  // ------------------------------------------------------------------ the table of addresses

  lemma {:induction false} RefreshedFacts(attempts: Attempts, now: int, window: int)
    requires Unique(attempts)
    ensures Unique(Refreshed(attempts, now, window)) && |Refreshed(attempts, now, window)| <= |attempts|
    ensures forall p | p in Refreshed(attempts, now, window) :: exists q :: q in attempts && q.key == p.key
  {
    if attempts != [] {
      assert attempts == [attempts[0]] + attempts[1..];
      RefreshedFacts(attempts[1..], now, window);
      var rest := Refreshed(attempts[1..], now, window);
      forall i | 0 <= i < |rest| ensures rest[i].key != attempts[0].key {
        assert rest[i] in rest;
        var q :| q in attempts[1..] && q.key == rest[i].key;
        var j :| 0 <= j < |attempts[1..]| && attempts[1..][j] == q;
        assert attempts[j + 1] == q;
      }
      assert attempts[0] in attempts;
    }
  }

  lemma {:induction false} DropOldestFacts(attempts: Attempts, size: int)
    requires Unique(attempts) && size >= 0
    ensures Unique(DropOldest(attempts, size)) && |DropOldest(attempts, size)| <= size
  {
    if |attempts| > size {
      DropOldestFacts(attempts[1..], size);
    }
  }

  /** Only entries at the front go: the newest stay, in their order. */
  lemma {:induction false} DropOldestKeepsNewest(attempts: Attempts, size: int)
    requires size >= 0
    ensures |DropOldest(attempts, size)| <= |attempts|
    ensures DropOldest(attempts, size) == attempts[|attempts| - |DropOldest(attempts, size)|..]
  {
    if |attempts| > size {
      DropOldestKeepsNewest(attempts[1..], size);
    }
  }

  ghost predicate TableBounded(s: State, limits: Limits) {
    Unique(s.attempts) && |s.attempts| <= limits.maxAddresses
  }

  /** Every call keeps one entry an address and at most the configured number of them. */
  lemma CallKeepsTableBounded(s: State, call: Call, limits: Limits)
    requires TableBounded(s, limits) && limits.maxAttempts >= 1 && limits.maxAddresses >= 0
    ensures TableBounded(After(s, call, limits), limits)
  {
    match call
    case Admit(address, now) => AdmitKeepsTableBounded(s, address, now, limits);
    case Success(address) => DeleteFacts(s.attempts, address);
    case Failure(_) =>
    case Dropped =>
  }

  lemma AdmitKeepsTableBounded(s: State, address: string, now: int, limits: Limits)
    requires TableBounded(s, limits) && limits.maxAttempts >= 1 && limits.maxAddresses >= 0
    ensures TableBounded(Admitted(s, address, now, limits), limits)
  {
    var booked := Booked(s.attempts, address, now, limits.attemptWindow);
    match AdmitVerdict(s, address, now, limits)
    case Shedding =>
    case AddressThrottled =>
      SetElements(s.attempts, address, booked);
      SetUnique(s.attempts, address, booked);
    case Allow =>
      SetUnique(s.attempts, address, booked + [now]);
      EvictionBounds(Set(s.attempts, address, booked + [now]), now, limits);
  }

  lemma EvictionBounds(attempts: Attempts, now: int, limits: Limits)
    requires Unique(attempts) && limits.maxAddresses >= 0
    ensures Unique(Evicted(attempts, now, limits)) && |Evicted(attempts, now, limits)| <= limits.maxAddresses
  {
    RefreshedIsUnique(attempts, now, limits.attemptWindow);
    DropOldestFacts(Refreshed(attempts, now, limits.attemptWindow), limits.maxAddresses);
  }

  lemma RefreshedIsUnique(attempts: Attempts, now: int, window: int)
    requires Unique(attempts)
    ensures Unique(Refreshed(attempts, now, window))
  {
    RefreshedFacts(attempts, now, window);
  }

  // ----------------------------------------------------------------------------- the class

  class Guard {
    var failures: seq<int>
    var attempts: Attempts
    const limits: Limits

    ghost function View(): State
      reads this
    {
      State(failures, attempts)
    }

    constructor (limits: Limits)
      ensures View() == State([], []) && this.limits == limits
    {
      failures, attempts, this.limits := [], [], limits;
    }

    method Admit(address: string, now: int) returns (verdict: Verdict)
      modifies this
      ensures verdict == AdmitVerdict(old(View()), address, now, limits)
      ensures View() == After(old(View()), Call.Admit(address, now), limits)
    {
      failures := WithinWindow(failures, now, limits.failureWindow);
      if |failures| >= limits.maxFailures {
        return Shedding;
      }
      var stamps := Lookup(attempts, address);
      var booked := WithinWindow(if stamps.Some? then stamps.value else [], now, limits.attemptWindow);
      if |booked| >= limits.maxAttempts {
        attempts := Set(attempts, address, booked);
        return AddressThrottled;
      }
      booked := booked + [now];
      attempts := Set(attempts, address, booked);
      EvictStale(now);
      verdict := Allow;
    }

    method RecordFailure(now: int)
      modifies this`failures
      ensures View() == After(old(View()), Failure(now), limits)
    {
      failures := WithinWindow(failures, now, limits.failureWindow);
      failures := failures + [now];
    }

    method RecordSuccess(address: string)
      modifies this`attempts
      ensures View() == After(old(View()), Success(address), limits)
    {
      attempts := Delete(attempts, address);
    }

    /** `evictStale`. */
    method EvictStale(now: int)
      modifies this`attempts
      ensures attempts == Evicted(old(attempts), now, limits)
    {
      if |attempts| <= limits.maxAddresses {
        return;
      }
      ghost var before := attempts;
      var visited := 0;
      var kept: Attempts := [];
      while visited < |attempts|
        invariant 0 <= visited <= |attempts| && attempts == before
        invariant kept + Refreshed(attempts[visited..], now, limits.attemptWindow) == Refreshed(before, now, limits.attemptWindow)
      {
        var live := WithinWindow(attempts[visited].value, now, limits.attemptWindow);
        assert attempts[visited..][1..] == attempts[visited + 1..];
        if |live| > 0 {
          kept := kept + [Pair(attempts[visited].key, live)];
        }
        visited := visited + 1;
      }
      assert attempts[visited..] == [];
      assert kept + [] == kept;
      attempts := kept;
      ghost var refreshed := kept;
      while |attempts| > limits.maxAddresses
        invariant DropOldest(attempts, limits.maxAddresses) == DropOldest(refreshed, limits.maxAddresses)
        decreases |attempts|
      {
        if |attempts| == 0 {
          return;
        }
        attempts := attempts[1..];
      }
    }
  }
}
