/** The bounded event ring of one force, read through resumable cursors, against the
    unbounded log it stands for. */
module EventRing {
  import opened Extrema
  import opened LuaValues

  const CAPACITY := 512

  datatype Event = Event(id: nat, kind: string, tick: nat, surface: Option<nat>)

  /** What a reader may see: the surfaces of its binding and the kinds it asked for. */
  datatype Reader = Reader(surfaces: set<nat>, kinds: Option<set<string>>)

  datatype Cursor = NoCursor | Malformed | At(number: nat)

  datatype Page = Page(events: seq<Event>, cursor: nat, hasMore: bool, oldest: nat, latest: nat)

  predicate Wanted(reader: Reader, e: Event) {
    && (e.surface.Some? ==> e.surface.value in reader.surfaces)
    && (reader.kinds.Some? ==> e.kind in reader.kinds.value)
  }

  function Matching(log: seq<Event>, reader: Reader): seq<Event> {
    if log == [] then []
    else
      var before := Matching(log[..|log| - 1], reader);
      if Wanted(reader, log[|log| - 1]) then before + [log[|log| - 1]] else before
  }

  // ------------------------------------------------------------------ the ring and its log

  /** Events are numbered from 1 in the order they were recorded. */
  ghost predicate Numbered(log: seq<Event>) {
    forall k | 0 <= k < |log| :: log[k].id == k + 1
  }

  /** What slot `i` holds after `log`: the newest event congruent to it, if any. */
  function SlotAfter(log: seq<Event>, i: nat): Option<Event>
    requires i < CAPACITY
  {
    if i >= |log| then None else Some(log[|log| - 1 - (|log| - 1 - i) % CAPACITY])
  }

  lemma SlotOfRecent(log: seq<Event>, k: nat)
    requires k < |log| && |log| - CAPACITY <= k
    ensures SlotAfter(log, k % CAPACITY) == Some(log[k])
  {
    var i := k % CAPACITY;
    assert (|log| - 1 - i) % CAPACITY == |log| - 1 - k by {
      assert |log| - 1 - i == CAPACITY * (k / CAPACITY) + (|log| - 1 - k);
      ModOfSum(k / CAPACITY, |log| - 1 - k);
    }
  }

  lemma ModOfSum(q: nat, r: nat)
    requires r < CAPACITY
    ensures (CAPACITY * q + r) % CAPACITY == r
  {
  }

  lemma SlotAfterRecord(log: seq<Event>, e: Event, i: nat)
    requires i < CAPACITY
    ensures SlotAfter(log + [e], i) == if i == |log| % CAPACITY then Some(e) else SlotAfter(log, i)
  {
    var n := |log|;
    if i <= n {
      var d := n - i;
      assert d == CAPACITY * (d / CAPACITY) + d % CAPACITY;
      assert n % CAPACITY == i <==> d % CAPACITY == 0 by {
        Congruent(n, i);
      }
      if d % CAPACITY != 0 {
        assert (d - 1) % CAPACITY == d % CAPACITY - 1 by {
          assert d - 1 == CAPACITY * (d / CAPACITY) + (d % CAPACITY - 1);
          ModOfSum(d / CAPACITY, d % CAPACITY - 1);
        }
      }
    }
  }

  lemma Congruent(n: nat, i: nat)
    requires i < CAPACITY && i <= n
    ensures n % CAPACITY == i <==> (n - i) % CAPACITY == 0
  {
    var q, r := (n - i) / CAPACITY, (n - i) % CAPACITY;
    assert n == CAPACITY * q + (r + i);
    if r + i < CAPACITY {
      ModOfSum(q, r + i);
    } else {
      assert n == CAPACITY * (q + 1) + (r + i - CAPACITY);
      ModOfSum(q + 1, r + i - CAPACITY);
    }
  }

  /** No slot holds the event any more. */
  ghost predicate Overwritten(log: seq<Event>, number: nat)
    requires 1 <= number <= |log|
  {
    forall i: nat | i < CAPACITY :: SlotAfter(log, i) != Some(log[number - 1])
  }

  /** An event is gone exactly when a full ring of later events has been recorded. */
  lemma OverwrittenExactly(log: seq<Event>, number: nat)
    requires Numbered(log) && 1 <= number <= |log|
    ensures Overwritten(log, number) <==> number + 512 <= |log|
  {
    if number + CAPACITY > |log| {
      SlotOfRecent(log, number - 1);
    } else {
      forall i: nat | i < CAPACITY ensures SlotAfter(log, i) != Some(log[number - 1]) {
      }
    }
  }

  // ----------------------------------------------------------------------- cursors and pages

  function FirstId(log: seq<Event>): nat {
    if |log| + 1 > CAPACITY + 1 then |log| + 1 - CAPACITY else 1
  }

  /** `parse_cursor`. */
  function ParseCursor(cursor: Cursor, log: seq<Event>): (r: Result<nat>)
    ensures r.Ok? ==> FirstId(log) - 1 <= r.value <= |log|
  {
    if cursor.NoCursor? then Ok(FirstId(log) - 1)
    else if cursor.Malformed? || cursor.number > |log| then Err("INVALID_CURSOR")
    else if cursor.number < FirstId(log) - 1 then Err("CURSOR_EXPIRED")
    else Ok(cursor.number)
  }

  /** A cursor is refused as expired exactly when the next event it would have read has
      really been overwritten. */
  lemma ExpiredExactly(number: nat, log: seq<Event>)
    requires Numbered(log)
    ensures ParseCursor(At(number), log) == Err("CURSOR_EXPIRED") <==> number < |log| && Overwritten(log, number + 1)
  {
    if number < |log| {
      OverwrittenExactly(log, number + 1);
    }
  }

  /** How far one page reads: to the end, or to the event that filled it. */
  function PageEnd(log: seq<Event>, from: nat, reader: Reader, limit: int, got: nat := 0): (end: nat)
    requires from <= |log|
    ensures from <= end <= |log|
    ensures from < |log| ==> from < end
    decreases |log| - from
  {
    if from == |log| then from
    else if !Wanted(reader, log[from]) then PageEnd(log, from + 1, reader, limit, got)
    else if got + 1 >= limit then from + 1
    else PageEnd(log, from + 1, reader, limit, got + 1)
  }

  function PageAt(log: seq<Event>, from: nat, reader: Reader, limit: int): Page
    requires from <= |log|
  {
    var end := PageEnd(log, from, reader, limit);
    Page(Matching(log[from..end], reader), end, end < |log|, FirstId(log) - 1, |log|)
  }

  lemma MatchingConcat(a: seq<Event>, b: seq<Event>, reader: Reader)
    ensures Matching(a + b, reader) == Matching(a, reader) + Matching(b, reader)
  {
    if b == [] {
      assert a + b == a;
    } else {
      MatchingConcat(a, b[..|b| - 1], reader);
      assert (a + b)[..|a + b| - 1] == a + b[..|b| - 1];
    }
  }

  /** A page holds at most `limit` events; it stops early only when it is full. */
  lemma {:induction false} PageIsFullOrLast(log: seq<Event>, from: nat, reader: Reader, limit: int, got: nat)
    requires from <= |log| && got < limit
    ensures var end := PageEnd(log, from, reader, limit, got);
            var found := |Matching(log[from..end], reader)|;
            got + found <= limit && (end < |log| ==> got + found == limit)
    decreases |log| - from
  {
    if from < |log| {
      var end := PageEnd(log, from, reader, limit, got);
      assert log[from..end] == [log[from]] + log[from + 1..end];
      MatchingConcat([log[from]], log[from + 1..end], reader);
      assert Matching([log[from]], reader) == if Wanted(reader, log[from]) then [log[from]] else [];
      if !Wanted(reader, log[from]) {
        PageIsFullOrLast(log, from + 1, reader, limit, got);
      } else if got + 1 < limit {
        PageIsFullOrLast(log, from + 1, reader, limit, got + 1);
      } else {
        assert log[from + 1..end] == [];
      }
    }
  }

  // ----------------------------------------------------------------------- client sessions

  /** What happens between a client's first and last look at the ring. Every poll names
      anew what its reader may see and asks for. */
  datatype Step = Record(kind: string, tick: nat, surface: Option<nat>) | Poll(reader: Reader, limit: int)

  /** A client that starts with or without a cursor and feeds every returned one back. */
  datatype Client = Client(cursor: Option<nat>, received: seq<Event>, expired: bool)

  /** The client's cursor, if it has one, is one the log has reached. */
  predicate Reached(client: Client, log: seq<Event>) {
    client.cursor.Some? ==> client.cursor.value <= |log|
  }

  /** The stretch of the log one answered poll covered, and for whom. */
  datatype Span = Span(from: nat, end: nat, reader: Reader)

  function LogAfter(log: seq<Event>, step: Step): seq<Event> {
    if step.Record? then log + [Event(|log| + 1, step.kind, step.tick, step.surface)] else log
  }

  /** Where the client's next poll starts reading. */
  function Resumes(log: seq<Event>, client: Client): Result<nat> {
    ParseCursor(if client.cursor.Some? then At(client.cursor.value) else NoCursor, log)
  }

  function ClientAfter(log: seq<Event>, client: Client, step: Step): (next: Client)
    requires Reached(client, log)
    ensures Reached(next, LogAfter(log, step))
  {
    if step.Record? || client.expired then client
    else
      match Resumes(log, client)
      case Err(_) => client.(expired := true)
      case Ok(from) =>
        var page := PageAt(log, from, step.reader, step.limit);
        Client(Some(page.cursor), client.received + page.events, false)
  }

  ghost function LogRun(log: seq<Event>, steps: seq<Step>): seq<Event>
    decreases steps
  {
    if steps == [] then log else LogRun(LogAfter(log, steps[0]), steps[1..])
  }

  ghost function ClientRun(log: seq<Event>, client: Client, steps: seq<Step>): (c: Client)
    requires Reached(client, log)
    decreases steps
  {
    if steps == [] then client
    else ClientRun(LogAfter(log, steps[0]), ClientAfter(log, client, steps[0]), steps[1..])
  }

  /** The stretches covered by the answered polls, one after the other. */
  ghost function Spans(log: seq<Event>, client: Client, steps: seq<Step>): seq<Span>
    requires Reached(client, log)
    decreases steps
  {
    if steps == [] then []
    else
      var next := ClientAfter(log, client, steps[0]);
      var rest := Spans(LogAfter(log, steps[0]), next, steps[1..]);
      if steps[0].Poll? && !next.expired
      then [Span(Resumes(log, client).value, next.cursor.value, steps[0].reader)] + rest
      else rest
  }

  /** The spans follow one another without gap or overlap. */
  ghost predicate Tiles(spans: seq<Span>, from: nat, end: nat)
    decreases spans
  {
    if spans == [] then from == end
    else spans[0].from == from && from <= spans[0].end <= end && Tiles(spans[1..], spans[0].end, end)
  }

  /** Of each span, the events its own reader may see. */
  ghost function Gathered(all: seq<Event>, spans: seq<Span>, from: nat, end: nat): seq<Event>
    requires Tiles(spans, from, end) && end <= |all|
    decreases spans
  {
    if spans == [] then []
    else Matching(all[from..spans[0].end], spans[0].reader) + Gathered(all, spans[1..], spans[0].end, end)
  }

  lemma {:induction false} LogOnlyGrows(log: seq<Event>, steps: seq<Step>)
    requires Numbered(log)
    ensures Numbered(LogRun(log, steps)) && log <= LogRun(log, steps)
    decreases steps
  {
    if steps != [] {
      LogOnlyGrows(LogAfter(log, steps[0]), steps[1..]);
    }
  }

  /** No silent gap: however recording interleaves with paging, the answered polls cover
      everything between a client's first and last cursor, and it receives of each stretch
      exactly what that poll's reader may see; the only other outcome is the expiry answer,
      given only when the next event is really gone. */
  lemma {:induction false} NoSilentGap(log: seq<Event>, client: Client, steps: seq<Step>)
    requires Numbered(log) && client.cursor.Some? && client.cursor.value <= |log| && !client.expired
    ensures var last, all, spans := ClientRun(log, client, steps), LogRun(log, steps), Spans(log, client, steps);
            && last.cursor.Some? && client.cursor.value <= last.cursor.value <= |all|
            && Tiles(spans, client.cursor.value, last.cursor.value)
            && last.received == client.received + Gathered(all, spans, client.cursor.value, last.cursor.value)
            && (last.expired ==> last.cursor.value + 512 < |all|)
    decreases steps
  {
    if steps != [] {
      var log1, client1 := LogAfter(log, steps[0]), ClientAfter(log, client, steps[0]);
      LogOnlyGrows(log1, steps[1..]);
      if client1.expired {
        ExpiredStays(log1, client1, steps[1..]);
      } else {
        PollKeepsCursor(log, client, steps[0]);
        NoSilentGap(log1, client1, steps[1..]);
        if steps[0].Poll? {
          PollCovers(log, LogRun(log1, steps[1..]), client, client.cursor.value, client1, steps[0].reader,
                     Spans(log1, client1, steps[1..]), ClientRun(log1, client1, steps[1..]));
        }
      }
    }
  }

  /** An answered poll of a client with a cursor reads on from there. */
  lemma PollKeepsCursor(log: seq<Event>, client: Client, step: Step)
    requires client.cursor.Some? && client.cursor.value <= |log| && !client.expired && !ClientAfter(log, client, step).expired
    ensures var next := ClientAfter(log, client, step);
            && next.cursor.Some? && client.cursor.value <= next.cursor.value <= |LogAfter(log, step)|
            && (step.Record? ==> next == client)
            && (step.Poll? ==>
                  && Resumes(log, client) == Ok(client.cursor.value)
                  && next.received == client.received + Matching(log[client.cursor.value..next.cursor.value], step.reader))
  {
    if step.Poll? {
      PollReads(log, client, step);
    }
  }

  lemma PollReads(log: seq<Event>, client: Client, step: Step)
    requires Reached(client, log) && step.Poll? && !client.expired
    ensures var next, from := ClientAfter(log, client, step), Resumes(log, client);
            && (next.expired <==> from.Err?)
            && (from.Ok? ==>
                  && next.cursor.Some? && from.value <= next.cursor.value <= |log|
                  && next.received == client.received + Matching(log[from.value..next.cursor.value], step.reader))
  {
  }

  /** An answered poll puts its span before those of the rest of the run. */
  lemma PollCovers(
      log: seq<Event>, all: seq<Event>, client: Client, from: nat, next: Client, reader: Reader, rest: seq<Span>, last: Client)
    requires next.cursor.Some? && last.cursor.Some?
    requires from <= next.cursor.value <= |log| && log <= all && next.cursor.value <= last.cursor.value <= |all|
    requires next.received == client.received + Matching(log[from..next.cursor.value], reader)
    requires Tiles(rest, next.cursor.value, last.cursor.value)
    requires last.received == next.received + Gathered(all, rest, next.cursor.value, last.cursor.value)
    ensures var spans := [Span(from, next.cursor.value, reader)] + rest;
            && Tiles(spans, from, last.cursor.value)
            && last.received == client.received + Gathered(all, spans, from, last.cursor.value)
  {
    FirstSpan(all, Span(from, next.cursor.value, reader), rest, last.cursor.value);
    assert all[from..next.cursor.value] == log[from..next.cursor.value];
    Regrouped(client.received, Matching(log[from..next.cursor.value], reader), Gathered(all, rest, next.cursor.value, last.cursor.value));
  }

  /** The number of events recorded that a ring of 512 slots no longer holds. */
  function Gone(log: seq<Event>): nat {
    if |log| > 512 then |log| - 512 else 0
  }

  /** The ring holds exactly the newest 512 events, whatever their number. */
  lemma HeldExactly(log: seq<Event>, e: Event)
    requires Numbered(log)
    ensures (exists i: nat :: i < CAPACITY && SlotAfter(log, i) == Some(e)) <==> e in log && e.id > Gone(log)
  {
    if e in log && e.id > Gone(log) {
      var k :| 0 <= k < |log| && log[k] == e;
      SlotOfRecent(log, k);
      assert SlotAfter(log, k % CAPACITY) == Some(e);
    }
  }

  /** How many steps pass before the first poll. */
  function Unpolled(steps: seq<Step>): (n: nat)
    ensures n <= |steps|
  {
    if steps == [] || steps[0].Poll? then 0 else 1 + Unpolled(steps[1..])
  }

  /** A client that starts without a cursor: its first poll starts with the oldest event the
      ring then holds, and from there on nothing is missed. */
  lemma {:induction false} FirstCallMissesNothing(log: seq<Event>, client: Client, steps: seq<Step>)
    requires Numbered(log) && client.cursor.None? && !client.expired
    ensures var last, all, spans, n := ClientRun(log, client, steps), LogRun(log, steps), Spans(log, client, steps), Unpolled(steps);
            if n == |steps| then last == client
            else
              var start := Gone(LogRun(log, steps[..n]));
              && last.cursor.Some? && start <= last.cursor.value <= |all|
              && Tiles(spans, start, last.cursor.value)
              && last.received == client.received + Gathered(all, spans, start, last.cursor.value)
              && (last.expired ==> last.cursor.value + 512 < |all|)
    decreases steps
  {
    if steps != [] {
      var log1, client1 := LogAfter(log, steps[0]), ClientAfter(log, client, steps[0]);
      LogOnlyGrows(log1, steps[1..]);
      if steps[0].Record? {
        FirstCallMissesNothing(log1, client1, steps[1..]);
        var n := Unpolled(steps[1..]);
        assert steps[..n + 1][1..] == steps[1..][..n];
      } else {
        assert steps[..0] == [];
        PollReads(log, client, steps[0]);
        NoSilentGap(log1, client1, steps[1..]);
        PollCovers(log, LogRun(log1, steps[1..]), client, Gone(log), client1, steps[0].reader,
                   Spans(log1, client1, steps[1..]), ClientRun(log1, client1, steps[1..]));
      }
    }
  }

  lemma Regrouped(a: seq<Event>, b: seq<Event>, c: seq<Event>)
    ensures a + b + c == a + (b + c)
  {
  }

  lemma FirstSpan(all: seq<Event>, span: Span, rest: seq<Span>, end: nat)
    requires span.from <= span.end <= end <= |all| && Tiles(rest, span.end, end)
    ensures Tiles([span] + rest, span.from, end)
    ensures Gathered(all, [span] + rest, span.from, end)
            == Matching(all[span.from..span.end], span.reader) + Gathered(all, rest, span.end, end)
  {
    assert ([span] + rest)[1..] == rest;
  }

  lemma SplitMatching(all: seq<Event>, a: nat, b: nat, c: nat, reader: Reader)
    requires a <= b <= c <= |all|
    ensures Matching(all[a..c], reader) == Matching(all[a..b], reader) + Matching(all[b..c], reader)
  {
    var first, second := all[a..b], all[b..c];
    assert all[a..c] == first + second;
    MatchingConcat(first, second, reader);
  }

  lemma {:induction false} ExpiredStays(log: seq<Event>, client: Client, steps: seq<Step>)
    requires Reached(client, log) && client.expired
    ensures ClientRun(log, client, steps) == client && Spans(log, client, steps) == []
    decreases steps
  {
    if steps != [] {
      ExpiredStays(LogAfter(log, steps[0]), client, steps[1..]);
    }
  }

  /** The event is one of the log's between the two cursors, and one the reader may see. */
  ghost predicate Owed(e: Event, log: seq<Event>, from: nat, end: nat, reader: Reader) {
    e in log && from < e.id <= end && Wanted(reader, e)
  }

  ghost predicate AllOwed(found: seq<Event>, log: seq<Event>, from: nat, end: nat, reader: Reader) {
    forall e | e in found :: Owed(e, log, from, end, reader)
  }

  ghost predicate NoneMissing(found: seq<Event>, log: seq<Event>, from: nat, end: nat, reader: Reader) {
    forall e | Owed(e, log, from, end, reader) :: e in found
  }

  ghost predicate Ascends(found: seq<Event>) {
    forall i, j | 0 <= i < j < |found| :: found[i].id < found[j].id
  }

  /** Of one stretch they come in ascending order, each once, and none is missing. */
  lemma {:induction false} MatchingAscends(log: seq<Event>, from: nat, end: nat, reader: Reader)
    requires Numbered(log) && from <= end <= |log|
    ensures AllOwed(Matching(log[from..end], reader), log, from, end, reader)
    ensures NoneMissing(Matching(log[from..end], reader), log, from, end, reader)
    ensures Ascends(Matching(log[from..end], reader))
    decreases end
  {
    if from < end {
      MatchingAscends(log, from, end - 1, reader);
      assert log[from..end][..end - from - 1] == log[from..end - 1];
      OneMoreOwed(log, Matching(log[from..end - 1], reader), from, end, reader);
    }
  }

  lemma OneMoreOwed(log: seq<Event>, before: seq<Event>, from: nat, end: nat, reader: Reader)
    requires Numbered(log) && from < end <= |log|
    requires AllOwed(before, log, from, end - 1, reader) && NoneMissing(before, log, from, end - 1, reader) && Ascends(before)
    ensures var found := if Wanted(reader, log[end - 1]) then before + [log[end - 1]] else before;
            AllOwed(found, log, from, end, reader) && NoneMissing(found, log, from, end, reader) && Ascends(found)
  {
    var last := log[end - 1];
    assert last.id == end && last in log;
    forall e | Owed(e, log, from, end, reader) ensures e == last || Owed(e, log, from, end - 1, reader) {
      var k :| 0 <= k < |log| && log[k] == e;
      assert log[k].id == k + 1;
    }
    forall i | 0 <= i < |before| ensures before[i].id <= end - 1 {
      var e := before[i];
      assert e in before;
      assert Owed(e, log, from, end - 1, reader);
    }
  }

  ghost predicate Covers(span: Span, k: nat) {
    span.from <= k < span.end
  }

  ghost predicate Between(found: seq<Event>, all: seq<Event>, from: nat, end: nat) {
    forall e | e in found :: e in all && from < e.id <= end
  }

  /** Everything received comes once and in ascending order. */
  lemma {:induction false} GatheredAscends(all: seq<Event>, spans: seq<Span>, from: nat, end: nat)
    requires Numbered(all) && Tiles(spans, from, end) && end <= |all|
    ensures Ascends(Gathered(all, spans, from, end)) && Between(Gathered(all, spans, from, end), all, from, end)
    decreases spans
  {
    if spans != [] {
      var mid := spans[0].end;
      MatchingAscends(all, from, mid, spans[0].reader);
      GatheredAscends(all, spans[1..], mid, end);
      AppendAscends(all, Matching(all[from..mid], spans[0].reader), Gathered(all, spans[1..], mid, end), from, mid, end);
    }
  }

  lemma AppendAscends(all: seq<Event>, a: seq<Event>, b: seq<Event>, from: nat, mid: nat, end: nat)
    requires from <= mid <= end && Ascends(a) && Ascends(b) && Between(a, all, from, mid) && Between(b, all, mid, end)
    ensures Ascends(a + b) && Between(a + b, all, from, end)
  {
    forall i, j | 0 <= i < |a| && 0 <= j < |b| ensures a[i].id < b[j].id {
      assert a[i] in a && b[j] in b;
    }
  }

  /** An event is received if and only if the reader of the poll that covered it may see it. */
  lemma {:induction false} ReceivedExactly(all: seq<Event>, spans: seq<Span>, from: nat, end: nat, i: nat, k: nat)
    requires Numbered(all) && Tiles(spans, from, end) && end <= |all|
    requires i < |spans| && Covers(spans[i], k)
    ensures from <= k < end
    ensures all[k] in Gathered(all, spans, from, end) <==>
              && (all[k].surface.Some? ==> all[k].surface.value in spans[i].reader.surfaces)
              && (spans[i].reader.kinds.Some? ==> all[k].kind in spans[i].reader.kinds.value)
    decreases spans
  {
    var mid := spans[0].end;
    MatchingAscends(all, from, mid, spans[0].reader);
    GatheredAscends(all, spans[1..], mid, end);
    if i > 0 {
      ReceivedExactly(all, spans[1..], mid, end, i - 1, k);
    } else {
      assert Owed(all[k], all, from, mid, spans[0].reader) <==> Wanted(spans[0].reader, all[k]);
    }
  }

  /** Every event between the two cursors is covered by some poll. */
  lemma {:induction false} EveryEventCovered(spans: seq<Span>, from: nat, end: nat, k: nat)
    requires Tiles(spans, from, end) && from <= k < end
    ensures exists i :: 0 <= i < |spans| && Covers(spans[i], k)
    decreases spans
  {
    if Covers(spans[0], k) {
      assert Covers(spans[0], k);
    } else {
      EveryEventCovered(spans[1..], spans[0].end, end, k);
      var i :| 0 <= i < |spans[1..]| && Covers(spans[1..][i], k);
      assert Covers(spans[i + 1], k);
    }
  }

  /** A client that never changes what it asks for has received exactly the events it may
      see between its two cursors. */
  lemma {:induction false} OneReaderGathers(all: seq<Event>, spans: seq<Span>, from: nat, end: nat, reader: Reader)
    requires Tiles(spans, from, end) && end <= |all|
    requires forall i | 0 <= i < |spans| :: spans[i].reader == reader
    ensures from <= end && Gathered(all, spans, from, end) == Matching(all[from..end], reader)
    decreases spans
  {
    if spans == [] {
      assert all[from..end] == [];
    } else {
      OneReaderGathers(all, spans[1..], spans[0].end, end, reader);
      SplitMatching(all, from, spans[0].end, end, reader);
    }
  }

  /** With recording paused, paging reaches the end: every page of a client that is
      behind moves it forward, and the pages together are everything it was owed. */
  lemma {:induction false} PagingTerminates(log: seq<Event>, from: nat, reader: Reader, limits: seq<int>)
    requires from <= |log| && |limits| >= |log| - from
    ensures var last := Drain(log, from, reader, limits);
            last.0 == |log| && last.1 == Matching(log[from..], reader)
    decreases |limits|
  {
    if from == |log| {
      assert log[from..] == [];
      DrainAtEnd(log, reader, limits);
    } else {
      var page := PageAt(log, from, reader, limits[0]);
      PagingTerminates(log, page.cursor, reader, limits[1..]);
      assert log[from..] == log[from..page.cursor] + log[page.cursor..];
      MatchingConcat(log[from..page.cursor], log[page.cursor..], reader);
    }
  }

  /** Polling repeatedly with the given page sizes. */
  ghost function Drain(log: seq<Event>, from: nat, reader: Reader, limits: seq<int>): (nat, seq<Event>)
    requires from <= |log|
    decreases |limits|
  {
    if limits == [] then (from, [])
    else
      var page := PageAt(log, from, reader, limits[0]);
      var rest := Drain(log, page.cursor, reader, limits[1..]);
      (rest.0, page.events + rest.1)
  }

  lemma {:induction false} DrainAtEnd(log: seq<Event>, reader: Reader, limits: seq<int>)
    ensures Drain(log, |log|, reader, limits) == (|log|, [])
    decreases |limits|
  {
    if limits != [] {
      assert log[|log|..|log|] == [];
      DrainAtEnd(log, reader, limits[1..]);
      assert PageAt(log, |log|, reader, limits[0]).events + [] == [];
    }
  }

  /** One round of the reading loop. */
  lemma OneMoreRead(log: seq<Event>, start: nat, examined: nat, reader: Reader, limit: int)
    requires start <= examined < |log|
    ensures var before, after := Matching(log[start..examined], reader), Matching(log[start..examined + 1], reader);
            && after == (if Wanted(reader, log[examined]) then before + [log[examined]] else before)
            && PageEnd(log, examined, reader, limit, |before|)
               == if Wanted(reader, log[examined]) && |after| >= limit then examined + 1
                  else PageEnd(log, examined + 1, reader, limit, |after|)
  {
    assert log[start..examined + 1][..examined - start] == log[start..examined];
  }

  // ------------------------------------------------------------------------------ the ring

  class Ring {
    var nextId: nat
    const slots: array<Option<Event>>
    /** Everything ever recorded. */
    ghost var log: seq<Event>

    ghost predicate Valid()
      reads this, slots
    {
      && slots.Length == CAPACITY
      && nextId == |log| + 1
      && Numbered(log)
      && forall i | 0 <= i < CAPACITY :: slots[i] == SlotAfter(log, i)
    }

    constructor ()
      ensures Valid() && log == [] && fresh(slots)
    {
      nextId, log := 1, [];
      slots := new Option<Event>[CAPACITY](_ => None);
    }

    /** `record`, past the checks that some reader could exist. */
    method Record(kind: string, tick: nat, surface: Option<nat>)
      requires Valid()
      modifies this, slots
      ensures Valid() && log == old(log) + [Event(|old(log)| + 1, kind, tick, surface)]
    {
      var id := nextId;
      nextId := id + 1;
      var event := Event(id, kind, tick, surface);
      forall i: nat | i < CAPACITY
        ensures SlotAfter(log + [event], i) == if i == (id - 1) % CAPACITY then Some(event) else SlotAfter(log, i)
      {
        SlotAfterRecord(log, event, i);
      }
      slots[(id - 1) % CAPACITY] := Some(event);
      log := log + [event];
    }

    /** `list`, for a payload that is a table. `maxPage` is the reader's own page bound. A call
        without a cursor is answered from everything the slots hold. */
    method List(cursor: Cursor, types: Value, pageSize: Value, surfaces: set<nat>, maxPage: Option<int>)
      returns (r: Result<Page>)
      requires Valid()
      ensures r == ListAnswer(log, cursor, types, pageSize, surfaces, maxPage)
      ensures cursor.NoCursor? && r.Ok? ==>
                forall e :: e in r.value.events <==>
                  && (exists i: nat :: i < CAPACITY && slots[i] == Some(e)) && e.id <= r.value.cursor
                  && MayBeSeen(e, surfaces, types)
    {
      r := ReadPage(cursor, types, pageSize, surfaces, maxPage);
      if cursor.NoCursor? && r.Ok? {
        FirstAnswer(log, types, pageSize, surfaces, maxPage);
      }
    }

    method ReadPage(cursor: Cursor, types: Value, pageSize: Value, surfaces: set<nat>, maxPage: Option<int>)
      returns (r: Result<Page>)
      requires Valid()
      ensures r == if ParseCursor(cursor, log).Err? then Err(ParseCursor(cursor, log).code)
                   else if !TypesAccepted(types) then Err("INVALID_EVENT_TYPES")
                   else if PageLimit(pageSize, maxPage).Err? then Err("INVALID_PAGE_SIZE")
                   else Ok(PageAt(log, ParseCursor(cursor, log).value, Reader(surfaces, KindsOf(types)), PageLimit(pageSize, maxPage).value))
    {
      var latestId := nextId - 1;
      var firstId := if nextId > CAPACITY then nextId - CAPACITY else 1;
      if cursor.Malformed? || (cursor.At? && cursor.number > latestId) {
        return Err("INVALID_CURSOR");
      }
      if cursor.At? && cursor.number < firstId - 1 {
        return Err("CURSOR_EXPIRED");
      }
      var start := if cursor.At? then cursor.number else firstId - 1;
      if !TypesAccepted(types) {
        return Err("INVALID_EVENT_TYPES");
      }
      var limit := PageLimit(pageSize, maxPage);
      if limit.Err? {
        return Err(limit.code);
      }
      var reader := Reader(surfaces, KindsOf(types));
      var events, examined := ReadFrom(start, reader, limit.value);
      r := Ok(Page(events, examined, examined < latestId, firstId - 1, latestId));
    }

    /** The reading loop of `list`. */
    method ReadFrom(start: nat, reader: Reader, limit: int) returns (events: seq<Event>, examined: nat)
      requires Valid() && FirstId(log) - 1 <= start <= |log|
      ensures examined == PageEnd(log, start, reader, limit)
      ensures events == Matching(log[start..examined], reader)
    {
      events, examined := [], start;
      assert log[start..start] == [];
      while examined < nextId - 1
        invariant start <= examined <= |log|
        invariant events == Matching(log[start..examined], reader)
        invariant PageEnd(log, start, reader, limit) == PageEnd(log, examined, reader, limit, |events|)
        decreases |log| - examined
      {
        var id := examined + 1;
        SlotOfRecent(log, examined);
        OneMoreRead(log, start, examined, reader, limit);
        var entry := slots[(id - 1) % CAPACITY];
        assert entry == Some(log[examined]);
        examined := id;
        if entry.Some? && entry.value.id == id && Wanted(reader, entry.value) {
          events := events + [entry.value];
          if |events| >= limit {
            return;
          }
        }
      }
    }

    /** `has_new_events`: a waiting reader is woken exactly when something came later, or
        when its cursor cannot be read. */
    method HasNewEvents(cursor: Cursor) returns (news: bool)
      requires Valid()
      ensures cursor.At? ==> (news <==> exists k :: 0 <= k < |log| && log[k].id > cursor.number)
      ensures !cursor.At? ==> news
    {
      if !cursor.At? {
        return true;
      }
      news := cursor.number < nextId - 1;
      if news {
        assert log[cursor.number].id > cursor.number;
      }
    }
  }

  /** `type_filter` accepts the value. */
  /** What `list` answers on a log. */
  function ListAnswer(
      log: seq<Event>, cursor: Cursor, types: Value, pageSize: Value, surfaces: set<nat>, maxPage: Option<int>): Result<Page>
  {
    if ParseCursor(cursor, log).Err? then Err(ParseCursor(cursor, log).code)
    else if !TypesAccepted(types) then Err("INVALID_EVENT_TYPES")
    else if PageLimit(pageSize, maxPage).Err? then Err("INVALID_PAGE_SIZE")
    else Ok(PageAt(log, ParseCursor(cursor, log).value, Reader(surfaces, KindsOf(types)), PageLimit(pageSize, maxPage).value))
  }

  /** The event's surface is one of the reader's, or it has none, and its kind is one asked for. */
  ghost predicate MayBeSeen(e: Event, surfaces: set<nat>, types: Value) {
    && (e.surface == None || e.surface.value in surfaces)
    && (types == Nil || (types.Table? && Str(e.kind) in types.list))
  }

  ghost predicate CursorReadable(cursor: Cursor, log: seq<Event>) {
    match cursor
    case NoCursor => true
    case Malformed => false
    case At(n) => Gone(log) <= n <= |log|
  }

  ghost predicate TypesReadable(types: Value) {
    || types == Nil
    || (types.Table? && types.border <= 50 && forall v | v in types.list :: v.Str? && 1 <= |v.text| <= 200)
  }

  ghost predicate SizeReadable(pageSize: Value) {
    pageSize == Nil || pageSize == Bool(false) || exists n: nat :: n >= 1 && AsksFor(pageSize, n)
  }

  ghost predicate AsksFor(pageSize: Value, n: nat) {
    pageSize == Num(n as real)
  }

  /** Which requests are answered with a page, and with which error the others. */
  lemma ListAnswersWhen(log: seq<Event>, cursor: Cursor, types: Value, pageSize: Value, surfaces: set<nat>, maxPage: Option<int>)
    ensures var r := ListAnswer(log, cursor, types, pageSize, surfaces, maxPage);
            && (r.Ok? <==> CursorReadable(cursor, log) && TypesReadable(types) && SizeReadable(pageSize))
            && (r == Err("CURSOR_EXPIRED") <==> cursor.At? && cursor.number < Gone(log))
            && (r == Err("INVALID_CURSOR") <==> cursor.Malformed? || (cursor.At? && cursor.number > |log|))
            && (r == Err("INVALID_EVENT_TYPES") <==> CursorReadable(cursor, log) && !TypesReadable(types))
  {
    if IsCount(pageSize) {
      assert AsksFor(pageSize, pageSize.number.Floor);
    }
    TypesReadableExactly(types);
  }

  predicate IsCount(v: Value) {
    v.Num? && v.number == v.number.Floor as real && v.number >= 1.0
  }

  lemma TypesReadableExactly(types: Value)
    ensures TypesReadable(types) <==> TypesAccepted(types)
  {
    if types.Table? && TypesAccepted(types) {
      forall v | v in types.list ensures v.Str? && 1 <= |v.text| <= 200 {
        var i :| 0 <= i < |types.list| && types.list[i] == v;
      }
    }
    if types.Table? && TypesReadable(types) {
      assert forall i | 0 <= i < |types.list| :: types.list[i] in types.list;
    }
  }

  /** A page holds exactly the events behind its cursor, up to the one it returns, that the
      reader may see and asked for, in ascending order; it stops early only when it is full;
      and it says what the ring holds. */
  lemma ListAnswersExactly(log: seq<Event>, cursor: Cursor, types: Value, pageSize: Value, surfaces: set<nat>, maxPage: Option<int>)
    requires Numbered(log) && ListAnswer(log, cursor, types, pageSize, surfaces, maxPage).Ok?
    ensures var page := ListAnswer(log, cursor, types, pageSize, surfaces, maxPage).value;
            var start := if cursor.At? then cursor.number else Gone(log);
            && (forall e :: e in page.events <==> e in log && start < e.id <= page.cursor && MayBeSeen(e, surfaces, types))
            && Ascends(page.events)
            && start <= page.cursor <= |log| && (page.hasMore <==> page.cursor < |log|)
            && page.oldest == Gone(log) && page.latest == |log|
  {
    var page := ListAnswer(log, cursor, types, pageSize, surfaces, maxPage).value;
    var start := if cursor.At? then cursor.number else Gone(log);
    var reader := Reader(surfaces, KindsOf(types));
    MatchingAscends(log, start, page.cursor, reader);
    forall e ensures e in page.events <==> e in log && start < e.id <= page.cursor && MayBeSeen(e, surfaces, types) {
      WantedIsSeen(e, surfaces, types);
      assert e in page.events ==> Owed(e, log, start, page.cursor, reader);
      assert Owed(e, log, start, page.cursor, reader) ==> e in page.events;
    }
  }

  lemma WantedIsSeen(e: Event, surfaces: set<nat>, types: Value)
    requires TypesAccepted(types)
    ensures Wanted(Reader(surfaces, KindsOf(types)), e) <==> MayBeSeen(e, surfaces, types)
  {
    if types.Table? {
      if Str(e.kind) in types.list {
        var i :| 0 <= i < |types.list| && types.list[i] == Str(e.kind);
      }
    }
  }

  /** The size of a page: what was asked for, 100 by default, but never more than the
      reader's own bound, 100 by default, and never more than 200. */
  lemma PageSizeExactly(
      log: seq<Event>, cursor: Cursor, types: Value, pageSize: Value, surfaces: set<nat>, maxPage: Option<int>, asked: nat, bound: nat)
    requires ListAnswer(log, cursor, types, pageSize, surfaces, maxPage).Ok?
    requires if pageSize == Nil || pageSize == Bool(false) then asked == 100 else AsksFor(pageSize, asked)
    requires bound >= 1 && if maxPage.Some? then bound == maxPage.value else bound == 100
    ensures var page := ListAnswer(log, cursor, types, pageSize, surfaces, maxPage).value;
            && |page.events| <= asked && |page.events| <= bound && |page.events| <= 200
            && (page.hasMore ==> |page.events| == asked || |page.events| == bound || |page.events| == 200)
  {
    var limit := PageLimit(pageSize, maxPage).value;
    PageIsFullOrLast(log, ParseCursor(cursor, log).value, Reader(surfaces, KindsOf(types)), limit, 0);
  }

  /** A call without a cursor is answered from everything the ring holds. */
  lemma FirstAnswer(log: seq<Event>, types: Value, pageSize: Value, surfaces: set<nat>, maxPage: Option<int>)
    requires Numbered(log) && ListAnswer(log, NoCursor, types, pageSize, surfaces, maxPage).Ok?
    ensures var page := ListAnswer(log, NoCursor, types, pageSize, surfaces, maxPage).value;
            forall e :: e in page.events <==>
              (exists i: nat :: i < CAPACITY && SlotAfter(log, i) == Some(e)) && e.id <= page.cursor && MayBeSeen(e, surfaces, types)
  {
    ListAnswersExactly(log, NoCursor, types, pageSize, surfaces, maxPage);
    forall e ensures (exists i: nat :: i < CAPACITY && SlotAfter(log, i) == Some(e)) <==> e in log && e.id > Gone(log) {
      HeldExactly(log, e);
    }
  }

  predicate TypesAccepted(types: Value) {
    types == Nil
    || (types.Table? && types.border <= 50 && forall i | 0 <= i < |types.list| :: ValidString(types.list[i], 200))
  }

  function KindsOf(types: Value): Option<set<string>>
    requires TypesAccepted(types)
  {
    if types == Nil then None
    else Some(set i | 0 <= i < |types.list| :: types.list[i].text)
  }

  function PageLimit(pageSize: Value, maxPage: Option<int>): Result<int> {
    var asked := if pageSize == Nil || pageSize == Bool(false) then Num(100.0) else pageSize;
    if !asked.Num? || asked.number != asked.number.Floor as real || asked.number < 1.0 then Err("INVALID_PAGE_SIZE")
    else Ok(Min(Min(asked.number.Floor, if maxPage.Some? then maxPage.value else 100), 200))
  }
}
