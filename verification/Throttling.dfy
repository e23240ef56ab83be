/** Two harder facts about runs of the pairing guard: what one address can get through
    while the guard remembers it, and that the failure bound under overlap is tight. */
module Throttling {
  import opened Extrema
  import opened OrderedMaps
  import opened PairGuard

  // ------------------------------------------------------------------------- one address

  function Bucket(s: State, address: string): seq<int> {
    var stamps := Lookup(s.attempts, address);
    if stamps.Some? then stamps.value else []
  }

  /** The `n`-th call let an attempt from the address through. */
  ghost predicate Allowed(calls: seq<Call>, n: nat, address: string, limits: Limits)
    requires n < |calls|
  {
    && calls[n].Admit? && calls[n].address == address
    && AdmitVerdict(StateAfter(calls[..n], limits), address, calls[n].now, limits).Allow?
  }

  ghost function AllowedCount(calls: seq<Call>, p: nat, n: nat, address: string, limits: Limits): nat
    requires p <= n <= |calls|
    decreases n
  {
    if n == p then 0
    else AllowedCount(calls, p, n - 1, address, limits) + if Allowed(calls, n - 1, address, limits) then 1 else 0
  }

  /** From just after call `p` up to `n` the guard never loses the address: it neither
      succeeds nor is evicted. */
  ghost predicate Remembered(calls: seq<Call>, p: nat, n: nat, address: string, limits: Limits)
    requires p <= n <= |calls|
  {
    forall m | p < m <= n :: Lookup(StateAfter(calls[..m], limits).attempts, address).Some?
  }

  /** Lowest clock reading among the admissions from `p` up to, not including, `n`. */
  ghost function LowestAdmission(calls: seq<Call>, p: nat, n: nat): int
    requires p < n <= |calls| && calls[p].Admit?
    decreases n
  {
    if n == p + 1 then calls[p].now
    else
      var before := LowestAdmission(calls, p, n - 1);
      if calls[n - 1].Admit? then Min(before, calls[n - 1].now) else before
  }

  /** Some later admission, before `n`, read a clock a full window above the lowest reading
      since the one at `p`. */
  ghost predicate AttemptLapsed(calls: seq<Call>, p: nat, n: nat, window: int)
    requires p < n <= |calls| && calls[p].Admit?
  {
    exists q :: p < q < n && calls[q].Admit? && calls[q].now >= window + LowestAdmission(calls, p, q + 1)
  }

  /** The same, looking back from `n` one call at a time. */
  ghost predicate LapsedBy(calls: seq<Call>, p: nat, n: nat, window: int)
    requires p < n <= |calls| && calls[p].Admit?
    decreases n
  {
    n > p + 1
    && (LapsedBy(calls, p, n - 1, window) || (calls[n - 1].Admit? && calls[n - 1].now >= window + LowestAdmission(calls, p, n)))
  }

  lemma {:induction false} LapsedByFinds(calls: seq<Call>, p: nat, n: nat, window: int)
    requires p < n <= |calls| && calls[p].Admit? && LapsedBy(calls, p, n, window)
    ensures AttemptLapsed(calls, p, n, window)
    decreases n
  {
    if LapsedBy(calls, p, n - 1, window) {
      LapsedByFinds(calls, p, n - 1, window);
      var q :| p < q < n - 1 && calls[q].Admit? && calls[q].now >= window + LowestAdmission(calls, p, q + 1);
    } else {
      var q := n - 1;
      assert calls[q].Admit? && calls[q].now >= window + LowestAdmission(calls, p, q + 1);
    }
  }

  /** The last `k` stamps are none older than `low`. */
  ghost predicate LastAtLeast(stamps: seq<int>, k: nat, low: int) {
    k <= |stamps| && forall i | |stamps| - k <= i < |stamps| :: stamps[i] >= low
  }

  lemma {:induction false} WindowKeepsLast(stamps: seq<int>, k: nat, low: int, now: int, window: int)
    requires LastAtLeast(stamps, k, low) && Min(low, now) > now - window
    ensures LastAtLeast(WithinWindow(stamps, now, window), k, Min(low, now))
  {
    if k > 0 {
      var init, last := stamps[..|stamps| - 1], stamps[|stamps| - 1];
      WindowKeepsLast(init, k - 1, low, now, window);
      assert last >= low;
    }
  }

  // ------------------------------------------------------- what a call does to one bucket

  lemma {:induction false} RefreshedLookup(attempts: Attempts, now: int, window: int, address: string)
    requires Unique(attempts)
    ensures Lookup(Refreshed(attempts, now, window), address).Some? ==>
              && Lookup(attempts, address).Some?
              && Lookup(Refreshed(attempts, now, window), address).value
                 == WithinWindow(Lookup(attempts, address).value, now, window)
  {
    if attempts != [] {
      var tail := attempts[1..];
      assert forall i | 0 <= i < |tail| :: tail[i] == attempts[i + 1];
      RefreshedLookup(tail, now, window, address);
      if attempts[0].key == address {
        LookupFinds(tail, address);
        assert forall i | 0 <= i < |tail| :: tail[i].key != attempts[0].key;
      }
      var live := WithinWindow(attempts[0].value, now, window);
      if live != [] {
        assert ([Pair(attempts[0].key, live)] + Refreshed(tail, now, window))[1..] == Refreshed(tail, now, window);
      }
    }
  }

  lemma {:induction false} DropOldestLookup(attempts: Attempts, size: int, address: string)
    requires Unique(attempts)
    ensures Lookup(DropOldest(attempts, size), address).Some? ==>
              Lookup(DropOldest(attempts, size), address) == Lookup(attempts, address)
  {
    if attempts != [] && |attempts| > size {
      var tail := attempts[1..];
      assert forall i | 0 <= i < |tail| :: tail[i] == attempts[i + 1];
      DropOldestLookup(tail, size, address);
      if attempts[0].key == address {
        LookupFinds(tail, address);
        assert forall i | 0 <= i < |tail| :: tail[i].key != attempts[0].key;
      }
    }
  }

  /** An eviction that keeps the address leaves its bucket, or narrows it to the window. */
  lemma EvictedBucket(attempts: Attempts, now: int, limits: Limits, address: string)
    requires Unique(attempts) && Lookup(Evicted(attempts, now, limits), address).Some?
    ensures Lookup(attempts, address).Some?
    ensures var after, before := Lookup(Evicted(attempts, now, limits), address).value, Lookup(attempts, address).value;
            after == before || after == WithinWindow(before, now, limits.attemptWindow)
  {
    if |attempts| > limits.maxAddresses {
      RefreshedFacts(attempts, now, limits.attemptWindow);
      DropOldestLookup(Refreshed(attempts, now, limits.attemptWindow), limits.maxAddresses, address);
      RefreshedLookup(attempts, now, limits.attemptWindow, address);
    }
  }

  /** The bucket of an address the guard keeps, after an admission that reads `now`: the old
      one, or the old one seen through the window once or twice, and the new stamp if the
      attempt was the address's own and let through. */
  ghost predicate BucketMoves(before: seq<int>, after: seq<int>, own: bool, now: int, window: int) {
    var seen := WithinWindow(before, now, window);
    if own then after == seen + [now] || after == WithinWindow(seen + [now], now, window)
    else after == before || after == seen || after == WithinWindow(seen, now, window)
  }

  lemma AdmissionMoves(s: State, address: string, now: int, limits: Limits, watched: string)
    requires Unique(s.attempts) && Lookup(Admitted(s, address, now, limits).attempts, watched).Some?
    ensures BucketMoves(Bucket(s, watched), Bucket(Admitted(s, address, now, limits), watched),
                        watched == address && AdmitVerdict(s, address, now, limits).Allow?, now, limits.attemptWindow)
  {
    var booked := Booked(s.attempts, address, now, limits.attemptWindow);
    match AdmitVerdict(s, address, now, limits)
    case Shedding =>
    case AddressThrottled =>
      SetLookup(s.attempts, address, booked, watched);
    case Allow =>
      var stored := Set(s.attempts, address, booked + [now]);
      SetUnique(s.attempts, address, booked + [now]);
      SetLookup(s.attempts, address, booked + [now], watched);
      EvictedBucket(stored, now, limits, watched);
  }

  lemma MovesKeepLast(before: seq<int>, after: seq<int>, own: bool, now: int, window: int, k: nat, low: int)
    requires BucketMoves(before, after, own, now, window) && LastAtLeast(before, k, low) && Min(low, now) > now - window
    ensures LastAtLeast(after, if own then k + 1 else k, Min(low, now))
  {
    var seen, floor := WithinWindow(before, now, window), Min(low, now);
    WindowKeepsLast(before, k, low, now, window);
    if own {
      NowAtLeast(seen, k, floor, now);
      WindowKeepsLast(seen + [now], k + 1, floor, now, window);
    } else {
      WindowKeepsLast(seen, k, floor, now, window);
    }
  }

  lemma NowAtLeast(stamps: seq<int>, k: nat, low: int, now: int)
    requires LastAtLeast(stamps, k, low) && low <= now
    ensures LastAtLeast(stamps + [now], k + 1, low)
  {
  }

  // ---------------------------------------------------------------------------- whole runs

  lemma {:induction false} RunKeepsUnique(calls: seq<Call>, limits: Limits)
    ensures Unique(StateAfter(calls, limits).attempts)
  {
    if calls != [] {
      var s, last := StateAfter(calls[..|calls| - 1], limits), calls[|calls| - 1];
      RunKeepsUnique(calls[..|calls| - 1], limits);
      match last
      case Admit(address, now) => AdmissionKeepsUnique(s, address, now, limits);
      case Success(address) => DeleteFacts(s.attempts, address);
      case Failure(_) =>
      case Dropped =>
    }
  }

  lemma AdmissionKeepsUnique(s: State, address: string, now: int, limits: Limits)
    requires Unique(s.attempts)
    ensures Unique(Admitted(s, address, now, limits).attempts)
  {
    var booked := Booked(s.attempts, address, now, limits.attemptWindow);
    match AdmitVerdict(s, address, now, limits)
    case Shedding =>
    case AddressThrottled => SetUnique(s.attempts, address, booked);
    case Allow =>
      var stored := Set(s.attempts, address, booked + [now]);
      SetUnique(s.attempts, address, booked + [now]);
      RefreshedFacts(stored, now, limits.attemptWindow);
      DropOldestUnique(Refreshed(stored, now, limits.attemptWindow), limits.maxAddresses);
  }

  lemma {:induction false} DropOldestUnique(attempts: Attempts, size: int)
    requires Unique(attempts)
    ensures Unique(DropOldest(attempts, size))
  {
    if attempts != [] && |attempts| > size {
      DropOldestUnique(attempts[1..], size);
    }
  }

  lemma BucketStep(calls: seq<Call>, n: nat, address: string, limits: Limits)
    requires n < |calls| && Lookup(StateAfter(calls[..n + 1], limits).attempts, address).Some?
    ensures var before, after := Bucket(StateAfter(calls[..n], limits), address), Bucket(StateAfter(calls[..n + 1], limits), address);
            if calls[n].Admit?
            then BucketMoves(before, after, Allowed(calls, n, address, limits), calls[n].now, limits.attemptWindow)
            else after == before
  {
    var s := StateAfter(calls[..n], limits);
    assert calls[..n + 1][..n] == calls[..n];
    assert StateAfter(calls[..n + 1], limits) == After(s, calls[n], limits);
    RunKeepsUnique(calls[..n], limits);
    match calls[n]
    case Admit(source, now) => AdmissionMoves(s, source, now, limits, address);
    case Success(source) => DeleteFacts(s.attempts, source);
    case Failure(_) =>
    case Dropped =>
  }

  /** While its first stamp has not lapsed and the guard remembers the address, its bucket
      holds every attempt let through since. */
  lemma {:induction false} BucketHoldsAttempts(calls: seq<Call>, p: nat, n: nat, address: string, limits: Limits)
    requires p < n <= |calls| && Allowed(calls, p, address, limits) && Remembered(calls, p, n, address, limits)
    requires !LapsedBy(calls, p, n, limits.attemptWindow) && limits.attemptWindow > 0
    ensures LastAtLeast(Bucket(StateAfter(calls[..n], limits), address), AllowedCount(calls, p, n, address, limits),
                        LowestAdmission(calls, p, n))
    decreases n
  {
    assert Lookup(StateAfter(calls[..n], limits).attempts, address).Some?;
    if n == p + 1 {
      HoldsFirst(calls, p, address, limits);
    } else {
      BucketHoldsAttempts(calls, p, n - 1, address, limits);
      HoldsOneMore(calls, p, n, address, limits);
    }
  }

  lemma HoldsOneMore(calls: seq<Call>, p: nat, n: nat, address: string, limits: Limits)
    requires p + 1 < n <= |calls| && calls[p].Admit? && !LapsedBy(calls, p, n, limits.attemptWindow)
    requires Lookup(StateAfter(calls[..n], limits).attempts, address).Some? && limits.attemptWindow > 0
    requires LastAtLeast(Bucket(StateAfter(calls[..n - 1], limits), address), AllowedCount(calls, p, n - 1, address, limits),
                         LowestAdmission(calls, p, n - 1))
    ensures LastAtLeast(Bucket(StateAfter(calls[..n], limits), address), AllowedCount(calls, p, n, address, limits),
                        LowestAdmission(calls, p, n))
  {
    var last := n - 1;
    assert calls[..last + 1] == calls[..n];
    HoldsNext(calls, p, last, address, limits, AllowedCount(calls, p, last, address, limits), LowestAdmission(calls, p, last));
  }

  lemma HoldsFirst(calls: seq<Call>, p: nat, address: string, limits: Limits)
    requires p < |calls| && Allowed(calls, p, address, limits) && limits.attemptWindow > 0
    requires Lookup(StateAfter(calls[..p + 1], limits).attempts, address).Some?
    ensures LastAtLeast(Bucket(StateAfter(calls[..p + 1], limits), address), 1, calls[p].now)
    ensures AllowedCount(calls, p, p + 1, address, limits) == 1
  {
    BucketStep(calls, p, address, limits);
    MovesKeepLast(Bucket(StateAfter(calls[..p], limits), address), Bucket(StateAfter(calls[..p + 1], limits), address),
                  true, calls[p].now, limits.attemptWindow, 0, calls[p].now);
    assert AllowedCount(calls, p, p, address, limits) == 0;
  }

  lemma HoldsNext(calls: seq<Call>, p: nat, last: nat, address: string, limits: Limits, k: nat, low: int)
    requires p < last < |calls| && calls[p].Admit?
    requires Lookup(StateAfter(calls[..last + 1], limits).attempts, address).Some?
    requires LastAtLeast(Bucket(StateAfter(calls[..last], limits), address), k, low)
    requires calls[last].Admit? ==> Min(low, calls[last].now) > calls[last].now - limits.attemptWindow
    ensures LastAtLeast(Bucket(StateAfter(calls[..last + 1], limits), address),
                        if Allowed(calls, last, address, limits) then k + 1 else k,
                        if calls[last].Admit? then Min(low, calls[last].now) else low)
  {
    BucketStep(calls, last, address, limits);
    if calls[last].Admit? {
      MovesKeepLast(Bucket(StateAfter(calls[..last], limits), address), Bucket(StateAfter(calls[..last + 1], limits), address),
                    Allowed(calls, last, address, limits), calls[last].now, limits.attemptWindow, k, low);
    }
  }

  /** While the guard remembers an address, no more than `maxAttempts` of its attempts get
      through before some admission reads a clock a full window above the lowest reading
      since the first of them. The clock may jump either way. */
  lemma AttemptsSpanAWindow(calls: seq<Call>, p: nat, r: nat, address: string, limits: Limits)
    requires p < r < |calls| && Allowed(calls, p, address, limits) && Allowed(calls, r, address, limits)
    requires Remembered(calls, p, r, address, limits) && limits.attemptWindow > 0
    requires AllowedCount(calls, p, r + 1, address, limits) > limits.maxAttempts
    ensures AttemptLapsed(calls, p, r + 1, limits.attemptWindow)
  {
    var s, now := StateAfter(calls[..r], limits), calls[r].now;
    assert Booked(s.attempts, address, now, limits.attemptWindow) == WithinWindow(Bucket(s, address), now, limits.attemptWindow);
    if LapsedBy(calls, p, r + 1, limits.attemptWindow) {
      LapsedByFinds(calls, p, r + 1, limits.attemptWindow);
    } else {
      BucketHoldsAttempts(calls, p, r, address, limits);
      var low := LowestAdmission(calls, p, r);
      assert LowestAdmission(calls, p, r + 1) == Min(low, now);
      WindowKeepsLast(Bucket(s, address), AllowedCount(calls, p, r, address, limits), low, now, limits.attemptWindow);
    }
  }

  lemma {:induction false} LowestAdvancing(calls: seq<Call>, p: nat, n: nat)
    requires ClockAdvances(calls) && p < n <= |calls| && calls[p].Admit?
    ensures LowestAdmission(calls, p, n) == calls[p].now
    decreases n
  {
    if n > p + 1 {
      LowestAdvancing(calls, p, n - 1);
    }
  }

  /** Under a clock that never steps back, one address gets at most `maxAttempts` attempts
      through in any window between a success or an eviction. */
  lemma AtMostMaxAttemptsPerWindow(calls: seq<Call>, p: nat, r: nat, address: string, limits: Limits)
    requires p < r < |calls| && Allowed(calls, p, address, limits) && Allowed(calls, r, address, limits)
    requires Remembered(calls, p, r, address, limits) && limits.attemptWindow > 0 && ClockAdvances(calls)
    requires AllowedCount(calls, p, r + 1, address, limits) > limits.maxAttempts
    ensures calls[r].now - calls[p].now >= limits.attemptWindow
  {
    AttemptsSpanAWindow(calls, p, r, address, limits);
    var q :| p < q < r + 1 && calls[q].Admit? && calls[q].now >= limits.attemptWindow + LowestAdmission(calls, p, q + 1);
    LowestAdvancing(calls, p, q + 1);
  }

  // ------------------------------------------------------------------- the bound is tight

  /** Addresses no two of which are the same. */
  function Visitor(n: nat): string {
    seq(n, _ => 'a')
  }

  /** One of the first addresses. */
  ghost predicate Known(address: string, visitors: nat) {
    exists v: nat :: v < visitors && address == Visitor(v)
  }

  /** Everything in the run happens at one instant. */
  ghost predicate AtOnce(calls: seq<Call>) {
    forall i | 0 <= i < |calls| && (calls[i].Admit? || calls[i].Failure?) :: calls[i].now == 0
  }

  /** A run at one instant so far: `failures` failures on record, `open` attempts in flight,
      only the first `visitors` addresses seen. */
  ghost predicate Reached(calls: seq<Call>, limits: Limits, width: nat, visitors: nat, failures: nat, open: nat) {
    var s := StateAfter(calls, limits);
    && AtOnce(calls) && Overlap(calls, limits, width)
    && s.failures == seq(failures, _ => 0)
    && (forall i | 0 <= i < |s.attempts| :: Known(s.attempts[i].key, visitors))
    && InFlight(calls, limits) == open
    && FailureCount(calls, 0, |calls|) == failures
  }

  lemma {:induction false} ZerosStay(n: nat, window: int)
    requires window > 0
    ensures WithinWindow(seq(n, _ => 0), 0, window) == seq(n, _ => 0)
  {
    if n > 0 {
      var zeros: seq<int> := seq(n, _ => 0);
      assert zeros[..n - 1] == seq(n - 1, _ => 0);
      ZerosStay(n - 1, window);
    }
  }

  lemma VisitorsDiffer(m: nat, n: nat)
    requires m != n
    ensures Visitor(m) != Visitor(n)
  {
    assert |Visitor(m)| == m && |Visitor(n)| == n;
  }

  /** Appending a call moves state and counts by that call alone. */
  lemma OneMoreCall(calls: seq<Call>, call: Call, limits: Limits)
    ensures StateAfter(calls + [call], limits) == After(StateAfter(calls, limits), call, limits)
    ensures InFlight(calls + [call], limits)
            == InFlight(calls, limits)
               + (if call.Admit? then (if AdmitVerdict(StateAfter(calls, limits), call.address, call.now, limits).Allow? then 1 else 0)
                  else -1)
    ensures FailureCount(calls + [call], 0, |calls| + 1) == FailureCount(calls, 0, |calls|) + if call.Failure? then 1 else 0
  {
    assert (calls + [call])[..|calls|] == calls;
    CountPrefix(calls, [call], |calls|);
  }

  lemma {:induction false} CountPrefix(calls: seq<Call>, more: seq<Call>, n: nat)
    requires n <= |calls|
    ensures FailureCount(calls + more, 0, n) == FailureCount(calls, 0, n)
  {
    if n > 0 {
      CountPrefix(calls, more, n - 1);
    }
  }

  lemma OverlapGrows(calls: seq<Call>, call: Call, limits: Limits, width: nat)
    requires Overlap(calls, limits, width) && 0 <= InFlight(calls + [call], limits) <= width
    ensures Overlap(calls + [call], limits, width)
  {
    var longer := calls + [call];
    forall n | 0 <= n <= |longer| ensures 0 <= InFlight(longer[..n], limits) <= width {
      if n <= |calls| { assert longer[..n] == calls[..n]; } else { assert longer[..n] == longer; }
    }
  }

  /** The keys of the table after an admission are old ones or the one admitted. */
  lemma AdmissionKeys(s: State, address: string, now: int, limits: Limits)
    requires Unique(s.attempts)
    ensures var after := Admitted(s, address, now, limits).attempts;
            forall p | p in after :: p.key == address || exists q :: q in s.attempts && q.key == p.key
  {
    var booked := Booked(s.attempts, address, now, limits.attemptWindow);
    SetElements(s.attempts, address, booked);
    SetElements(s.attempts, address, booked + [now]);
    SetUnique(s.attempts, address, booked + [now]);
    var stored := Set(s.attempts, address, booked + [now]);
    RefreshedFacts(stored, now, limits.attemptWindow);
    DropOldestIsSuffix(Refreshed(stored, now, limits.attemptWindow), limits.maxAddresses);
  }

  lemma {:induction false} DropOldestIsSuffix(attempts: Attempts, size: int)
    ensures forall p | p in DropOldest(attempts, size) :: p in attempts
  {
    if attempts != [] && |attempts| > size {
      DropOldestIsSuffix(attempts[1..], size);
    }
  }

  lemma AdmitStep(calls: seq<Call>, limits: Limits, width: nat, visitors: nat, failures: nat, open: nat)
    requires Reached(calls, limits, width, visitors, failures, open) && open < width && failures < limits.maxFailures
    requires limits.failureWindow > 0 && limits.maxAttempts >= 1
    ensures Reached(calls + [Admit(Visitor(visitors), 0)], limits, width, visitors + 1, failures, open + 1)
  {
    var s, call := StateAfter(calls, limits), Admit(Visitor(visitors), 0);
    ZerosStay(failures, limits.failureWindow);
    NewcomerIsUnknown(s, visitors);
    assert AdmitVerdict(s, call.address, 0, limits).Allow?;
    OneMoreCall(calls, call, limits);
    OverlapGrows(calls, call, limits, width);
    RunKeepsUnique(calls, limits);
    AdmissionKeys(s, call.address, 0, limits);
    var next := StateAfter(calls + [call], limits);
    forall i | 0 <= i < |next.attempts| ensures Known(next.attempts[i].key, visitors + 1) {
      assert next.attempts[i] in next.attempts;
      if next.attempts[i].key != call.address {
        var q :| q in s.attempts && q.key == next.attempts[i].key;
        var j :| 0 <= j < |s.attempts| && s.attempts[j] == q;
        assert Known(s.attempts[j].key, visitors);
      }
    }
  }

  lemma NewcomerIsUnknown(s: State, visitors: nat)
    requires forall i | 0 <= i < |s.attempts| :: Known(s.attempts[i].key, visitors)
    ensures Lookup(s.attempts, Visitor(visitors)).None?
  {
    LookupFinds(s.attempts, Visitor(visitors));
    forall i | 0 <= i < |s.attempts| ensures s.attempts[i].key != Visitor(visitors) {
      var v: nat :| v < visitors && s.attempts[i].key == Visitor(v);
      VisitorsDiffer(v, visitors);
    }
  }

  lemma FailStep(calls: seq<Call>, limits: Limits, width: nat, visitors: nat, failures: nat, open: nat)
    requires Reached(calls, limits, width, visitors, failures, open) && open > 0 && limits.failureWindow > 0
    requires open <= width
    ensures Reached(calls + [Failure(0)], limits, width, visitors, failures + 1, open - 1)
  {
    ZerosStay(failures, limits.failureWindow);
    OneMoreCall(calls, Failure(0), limits);
    OverlapGrows(calls, Failure(0), limits, width);
    var zeros: seq<int> := seq(failures, _ => 0);
    assert zeros + [0] == seq(failures + 1, _ => 0);
  }

  /** One attempt after another, each failing. */
  lemma {:induction false} Sequentially(limits: Limits, width: nat, n: nat) returns (calls: seq<Call>)
    requires width >= 1 && n < limits.maxFailures && limits.failureWindow > 0 && limits.maxAttempts >= 1
    ensures Reached(calls, limits, width, n, n, 0)
  {
    if n == 0 {
      calls := [];
      assert calls[..0] == [];
    } else {
      calls := Sequentially(limits, width, n - 1);
      AdmitStep(calls, limits, width, n - 1, n - 1, 0);
      calls := calls + [Admit(Visitor(n - 1), 0)];
      FailStep(calls, limits, width, n, n - 1, 1);
      calls := calls + [Failure(0)];
    }
  }

  /** Then `n` attempts together. */
  lemma {:induction false} Together(limits: Limits, width: nat, n: nat) returns (calls: seq<Call>)
    requires 1 <= limits.maxFailures && n <= width && width >= 1 && limits.failureWindow > 0 && limits.maxAttempts >= 1
    ensures Reached(calls, limits, width, limits.maxFailures - 1 + n, limits.maxFailures - 1, n)
  {
    if n == 0 {
      calls := Sequentially(limits, width, limits.maxFailures - 1);
    } else {
      calls := Together(limits, width, n - 1);
      AdmitStep(calls, limits, width, limits.maxFailures - 1 + n - 1, limits.maxFailures - 1, n - 1);
      calls := calls + [Admit(Visitor(limits.maxFailures - 1 + n - 1), 0)];
    }
  }

  /** And all of them failing. */
  lemma {:induction false} AllFail(limits: Limits, width: nat, n: nat) returns (calls: seq<Call>)
    requires 1 <= limits.maxFailures && n <= width && width >= 1 && limits.failureWindow > 0 && limits.maxAttempts >= 1
    ensures Reached(calls, limits, width, limits.maxFailures - 1 + width, limits.maxFailures - 1 + n, width - n)
  {
    if n == 0 {
      calls := Together(limits, width, width);
    } else {
      calls := AllFail(limits, width, n - 1);
      FailStep(calls, limits, width, limits.maxFailures - 1 + width, limits.maxFailures - 1 + n - 1, width - n + 1);
      calls := calls + [Failure(0)];
    }
  }

  lemma {:induction false} LowestAtOnce(calls: seq<Call>, p: nat, n: nat)
    requires AtOnce(calls) && p < n <= |calls| && calls[p].Failure?
    ensures Lowest(calls, p, n) == 0
    decreases n
  {
    if n > p + 1 {
      LowestAtOnce(calls, p, n - 1);
    }
  }

  lemma NeverLapsesAtOnce(calls: seq<Call>, p: nat, n: nat, window: int)
    requires AtOnce(calls) && p < n <= |calls| && calls[p].Failure? && window > 0
    ensures !Lapsed(calls, p, n, window)
  {
    if Lapsed(calls, p, n, window) {
      var q :| p < q < n && (calls[q].Admit? || calls[q].Failure?) && calls[q].now >= window + Lowest(calls, p, q + 1);
      LowestAtOnce(calls, p, q + 1);
    }
  }

  /** The failure bound under overlap is tight, for every cap and every width: some run with
      at most `width` attempts overlapping records `maxFailures - 1 + width` failures, one
      fewer than must span a window, all at one instant. Beyond width 1 that exceeds the cap. */
  lemma OverlapBoundIsTight(limits: Limits, width: nat)
    requires limits.maxFailures >= 1 && width >= 1 && limits.failureWindow > 0 && limits.maxAttempts >= 1
    ensures exists calls: seq<Call> ::
              && Overlap(calls, limits, width) && AtOnce(calls)
              && FailureCount(calls, 0, |calls|) == limits.maxFailures - 1 + width
              && forall p | 0 <= p < |calls| && calls[p].Failure? :: !Lapsed(calls, p, |calls|, limits.failureWindow)
  {
    var calls := AllFail(limits, width, width);
    forall p | 0 <= p < |calls| && calls[p].Failure? ensures !Lapsed(calls, p, |calls|, limits.failureWindow) {
      NeverLapsesAtOnce(calls, p, |calls|, limits.failureWindow);
    }
  }

  /** So as soon as two attempts may overlap, whatever the cap, more failures than the cap
      can be recorded at one instant. */
  lemma OverlapExceedsCap(limits: Limits, width: nat)
    requires limits.maxFailures >= 1 && width >= 2 && limits.failureWindow > 0 && limits.maxAttempts >= 1
    ensures exists calls: seq<Call> ::
              && Overlap(calls, limits, width) && AtOnce(calls)
              && FailureCount(calls, 0, |calls|) > limits.maxFailures
  {
    OverlapBoundIsTight(limits, 2);
    var calls: seq<Call> :| Overlap(calls, limits, 2) && AtOnce(calls) && FailureCount(calls, 0, |calls|) == limits.maxFailures + 1;
    assert Overlap(calls, limits, width);
  }
}
