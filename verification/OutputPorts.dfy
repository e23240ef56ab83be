/** The AI output ports: rate-limited writes that expire, an index that forgets what has
    expired, and why forgetting never lets a write through early. */
module OutputPorts {
  import opened LuaValues

  const MAX_SIGNALS := 32
  const MAX_OUTPUT_PORTS := 256
  const MIN_WRITE_INTERVAL := 300
  const SWEEP_INTERVAL := 30

  /** An entity's unit number. */
  datatype Unit = Unit(number: nat)

  datatype Filter = Filter(kind: string, name: string, quality: string, minimum: int)

  /** The manual section the mod owns on a port. */
  datatype Section = Section(filters: seq<Filter>, active: bool)

  /** What the engine keeps: whether the entity is valid, whether it is an output port. */
  datatype Port = Port(valid: bool, output: bool, section: Option<Section>)

  datatype Record = Record(lastChange: int, clearTick: int, signalCount: nat)

  datatype Control = Control(tick: nat, outputs: map<Unit, Record>, ports: map<Unit, Port>)

  /** The prototypes a signal may name. */
  datatype Catalogue = Catalogue(items: set<string>, fluids: set<string>, virtuals: set<string>, qualities: set<string>)

  /** A write: the payload, what resolving its port gave, and whether the engine would add
      a section to it. */
  datatype Request = Request(payload: Value, target: Result<Unit>, sectionAvailable: bool)

  // ---------------------------------------------------------------------------- the signals

  predicate KnownName(kind: string, name: string, known: Catalogue) {
    || (kind == "item" && name in known.items)
    || (kind == "fluid" && name in known.fluids)
    || (kind == "virtual" && name in known.virtuals)
  }

  /** The file's `valid_signal`. */
  predicate ValidSignal(signal: Value, known: Catalogue) {
    && signal.Table?
    && ValidString(Get(signal, "name"), 200)
    && IntegerIn(Get(signal, "value"), -2147483648, 2147483647)
    && (Get(signal, "quality").Nil? || (Get(signal, "quality").Str? && Get(signal, "quality").text in known.qualities))
    && Get(signal, "type").Str?
    && KnownName(Get(signal, "type").text, Get(signal, "name").text, known)
  }

  function FilterOf(signal: Value, known: Catalogue): Filter
    requires ValidSignal(signal, known)
  {
    Filter(Get(signal, "type").text, Get(signal, "name").text,
           if Get(signal, "quality").Str? then Get(signal, "quality").text else "normal",
           Get(signal, "value").number.Floor)
  }

  function KeyOf(filter: Filter): string {
    filter.kind + ":" + filter.name + ":" + filter.quality
  }

  /** Every signal is valid and no two share a key. */
  ghost predicate Acceptable(signals: seq<Value>, known: Catalogue) {
    && (forall i | 0 <= i < |signals| :: ValidSignal(signals[i], known))
    && (forall i, j | 0 <= i < j < |signals| :: KeyOf(FilterOf(signals[i], known)) != KeyOf(FilterOf(signals[j], known)))
  }

  function Filters(signals: seq<Value>, known: Catalogue): (filters: seq<Filter>)
    requires forall i | 0 <= i < |signals| :: ValidSignal(signals[i], known)
  {
    seq(|signals|, i requires 0 <= i < |signals| => FilterOf(signals[i], known))
  }

  /** `n` signals are acceptable, and the next one is why the list is not. */
  ghost predicate StopsAt(signals: seq<Value>, known: Catalogue, n: nat, code: string) {
    && n < |signals|
    && Acceptable(signals[..n], known)
    && !Acceptable(signals[..n + 1], known)
    && code == if ValidSignal(signals[n], known) then "DUPLICATE_SIGNAL" else "INVALID_SIGNAL"
  }

  lemma AcceptableAppend(before: seq<Value>, signal: Value, known: Catalogue)
    requires Acceptable(before, known)
    ensures Acceptable(before + [signal], known) <==>
              && ValidSignal(signal, known)
              && forall k | 0 <= k < |before| :: KeyOf(FilterOf(before[k], known)) != KeyOf(FilterOf(signal, known))
  {
    var longer := before + [signal];
    if Acceptable(longer, known) {
      assert longer[|before|] == signal;
      forall k | 0 <= k < |before| ensures KeyOf(FilterOf(before[k], known)) != KeyOf(FilterOf(signal, known)) {
        assert KeyOf(FilterOf(longer[k], known)) != KeyOf(FilterOf(longer[|before|], known));
      }
    }
  }

  lemma FiltersAppend(before: seq<Value>, signal: Value, known: Catalogue)
    requires (forall i | 0 <= i < |before| :: ValidSignal(before[i], known)) && ValidSignal(signal, known)
    ensures Filters(before + [signal], known) == Filters(before, known) + [FilterOf(signal, known)]
  {
  }

  lemma AcceptablePrefix(signals: seq<Value>, known: Catalogue, n: nat)
    requires n <= |signals| && Acceptable(signals, known)
    ensures Acceptable(signals[..n], known)
  {
  }

  lemma AcceptableStep(signals: seq<Value>, known: Catalogue, i: nat)
    requires i < |signals| && Acceptable(signals[..i], known)
    ensures Acceptable(signals[..i + 1], known) <==>
              && ValidSignal(signals[i], known)
              && forall k | 0 <= k < i :: KeyOf(Filters(signals[..i], known)[k]) != KeyOf(FilterOf(signals[i], known))
    ensures Acceptable(signals[..i + 1], known) ==>
              Filters(signals[..i + 1], known) == Filters(signals[..i], known) + [FilterOf(signals[i], known)]
    ensures Acceptable(signals, known) ==> Acceptable(signals[..i + 1], known)
  {
    assert signals[..i + 1] == signals[..i] + [signals[i]];
    AcceptableAppend(signals[..i], signals[i], known);
    assert forall k | 0 <= k < i :: Filters(signals[..i], known)[k] == FilterOf(signals[..i][k], known);
    if Acceptable(signals[..i + 1], known) {
      FiltersAppend(signals[..i], signals[i], known);
    }
    if Acceptable(signals, known) {
      AcceptablePrefix(signals, known, i + 1);
    }
  }

  /** The filter loop: all the filters in order exactly when every signal is acceptable;
      otherwise the error of the first signal that is not. */
  method BuildFilters(signals: seq<Value>, known: Catalogue) returns (built: Result<seq<Filter>>)
    ensures built.Ok? <==> Acceptable(signals, known)
    ensures built.Ok? ==> built.value == Filters(signals, known)
    ensures built.Err? ==> exists n :: StopsAt(signals, known, n, built.code)
  {
    var filters: seq<Filter> := [];
    var seen: set<string> := {};
    for i := 0 to |signals|
      invariant Acceptable(signals[..i], known) && filters == Filters(signals[..i], known)
      invariant seen == set filter | filter in filters :: KeyOf(filter)
    {
      AcceptableStep(signals, known, i);
      if !ValidSignal(signals[i], known) {
        assert StopsAt(signals, known, i, "INVALID_SIGNAL");
        return Err("INVALID_SIGNAL");
      }
      var filter := FilterOf(signals[i], known);
      if KeyOf(filter) in seen {
        assert StopsAt(signals, known, i, "DUPLICATE_SIGNAL");
        return Err("DUPLICATE_SIGNAL");
      }
      seen := seen + {KeyOf(filter)};
      filters := filters + [filter];
    }
    assert signals[..|signals|] == signals;
    built := Ok(filters);
  }

  // ------------------------------------------------------------------------------ one write

  /** `payload.ttlSeconds or 30`. */
  function TtlOf(payload: Value): Value
    requires payload.Table?
  {
    var ttl := Get(payload, "ttlSeconds");
    if ttl.Nil? || ttl == Bool(false) then Num(30.0) else ttl
  }

  predicate WellShaped(payload: Value) {
    payload.Table? && Get(payload, "signals").Table? && Get(payload, "signals").border <= MAX_SIGNALS
  }

  predicate RateLimited(c: Control, unit: Unit) {
    unit in c.outputs && c.tick - c.outputs[unit].lastChange < MIN_WRITE_INTERVAL
  }

  /** Everything a write needs to be carried out. */
  ghost predicate Accepted(c: Control, request: Request, known: Catalogue) {
    && WellShaped(request.payload)
    && request.target.Ok?
    && request.target.value in c.ports
    && c.ports[request.target.value].output
    && IntegerIn(TtlOf(request.payload), 5, 3600)
    && !RateLimited(c, request.target.value)
    && (request.target.value in c.outputs || |c.outputs| < MAX_OUTPUT_PORTS)
    && Acceptable(Get(request.payload, "signals").list, known)
    && (c.ports[request.target.value].section.Some? || request.sectionAvailable)
  }

  ghost function Written(c: Control, request: Request, known: Catalogue): Control
    requires Accepted(c, request, known)
  {
    var unit, signals := request.target.value, Get(request.payload, "signals").list;
    var clearTick := c.tick + 60 * TtlOf(request.payload).number.Floor;
    Control(
      c.tick,
      c.outputs[unit := Record(c.tick, clearTick, |signals|)],
      c.ports[unit := c.ports[unit].(section := Some(Section(Filters(signals, known), true)))])
  }

  // ------------------------------------------------------------------- a write, written out

  /** A signal of a known item, fluid or virtual signal with a 32-bit value. */
  ghost predicate GoodSignal(signal: Value, known: Catalogue) {
    && signal.Table?
    && Get(signal, "name").Str? && 1 <= |Get(signal, "name").text| <= 200
    && (|| (Get(signal, "type") == Str("item") && Get(signal, "name").text in known.items)
        || (Get(signal, "type") == Str("fluid") && Get(signal, "name").text in known.fluids)
        || (Get(signal, "type") == Str("virtual") && Get(signal, "name").text in known.virtuals))
    && (Get(signal, "quality") == Nil || (Get(signal, "quality").Str? && Get(signal, "quality").text in known.qualities))
    && Get(signal, "value").Num? && Get(signal, "value").number == Get(signal, "value").number.Floor as real
    && -2147483648 <= Get(signal, "value").number.Floor <= 2147483647
  }

  /** The filter carries the signal as it was given, of normal quality if none was. */
  ghost predicate Carries(filter: Filter, signal: Value) {
    && signal.Table?
    && Str(filter.kind) == Get(signal, "type") && Str(filter.name) == Get(signal, "name")
    && Str(filter.quality) == (if Get(signal, "quality") == Nil then Str("normal") else Get(signal, "quality"))
    && Num(filter.minimum as real) == Get(signal, "value")
  }

  ghost predicate CarriesAll(filters: seq<Filter>, signals: seq<Value>) {
    |filters| == |signals| && forall i | 0 <= i < |signals| :: Carries(filters[i], signals[i])
  }

  /** Each signal can be told from every other by type, name and quality. */
  ghost predicate Separable(filters: seq<Filter>) {
    forall i, j | 0 <= i < j < |filters| ::
      filters[i].kind + ":" + filters[i].name + ":" + filters[i].quality
      != filters[j].kind + ":" + filters[j].name + ":" + filters[j].quality
  }

  lemma GoodSignalsCarried(signals: seq<Value>, known: Catalogue)
    ensures Acceptable(signals, known) <==>
            (forall i | 0 <= i < |signals| :: GoodSignal(signals[i], known))
            && exists filters :: CarriesAll(filters, signals) && Separable(filters)
    ensures Acceptable(signals, known) ==> CarriesAll(Filters(signals, known), signals)
  {
    assert forall i | 0 <= i < |signals| :: GoodSignal(signals[i], known) <==> ValidSignal(signals[i], known);
    if forall i | 0 <= i < |signals| :: ValidSignal(signals[i], known) {
      var filters := Filters(signals, known);
      assert CarriesAll(filters, signals);
      assert forall i | 0 <= i < |signals| :: filters[i] == FilterOf(signals[i], known);
      if other :| CarriesAll(other, signals) && Separable(other) {
        assert other == filters;
      }
      if Acceptable(signals, known) {
        assert Separable(filters);
      }
    }
  }

  /** `seconds` is the time to live the payload asks for, half a minute by default. */
  ghost predicate LivesFor(payload: Value, seconds: int) {
    payload.Table?
    && if Get(payload, "ttlSeconds") == Nil || Get(payload, "ttlSeconds") == Bool(false) then seconds == 30
       else Get(payload, "ttlSeconds") == Num(seconds as real)
  }

  /** Which writes are carried out. */
  lemma AcceptedExactly(c: Control, request: Request, known: Catalogue)
    ensures Accepted(c, request, known) <==>
            && request.payload.Table? && Get(request.payload, "signals").Table? && Get(request.payload, "signals").border <= 32
            && request.target.Ok? && request.target.value in c.ports && c.ports[request.target.value].output
            && (exists seconds :: LivesFor(request.payload, seconds) && 5 <= seconds <= 3600)
            && (request.target.value in c.outputs ==> c.tick - c.outputs[request.target.value].lastChange >= 300)
            && (request.target.value !in c.outputs ==> |c.outputs| <= 255)
            && (forall i | 0 <= i < |Get(request.payload, "signals").list| :: GoodSignal(Get(request.payload, "signals").list[i], known))
            && (exists filters :: CarriesAll(filters, Get(request.payload, "signals").list) && Separable(filters))
            && (c.ports[request.target.value].section.Some? || request.sectionAvailable)
  {
    if request.payload.Table? && Get(request.payload, "signals").Table? {
      GoodSignalsCarried(Get(request.payload, "signals").list, known);
      TtlExactly(request.payload);
    }
  }

  lemma TtlExactly(payload: Value)
    requires payload.Table?
    ensures IntegerIn(TtlOf(payload), 5, 3600) <==> exists seconds :: LivesFor(payload, seconds) && 5 <= seconds <= 3600
    ensures forall seconds | LivesFor(payload, seconds) :: TtlOf(payload).Num? && TtlOf(payload).number.Floor == seconds
  {
    if IntegerIn(TtlOf(payload), 5, 3600) {
      assert LivesFor(payload, TtlOf(payload).number.Floor);
    }
  }

  // ------------------------------------------------------------------------------ the sweep

  predicate Due(c: Control, unit: Unit)
    requires unit in c.outputs
  {
    c.tick >= c.outputs[unit].clearTick || unit !in c.ports || !c.ports[unit].valid
  }

  /** The file's `clear_output`. */
  function Cleared(port: Port): Port {
    if port.valid && port.output && port.section.Some? then port.(section := Some(Section([], false))) else port
  }

  function Swept(c: Control): Control {
    Control(
      c.tick,
      map unit | unit in c.outputs && !Due(c, unit) :: c.outputs[unit],
      map unit | unit in c.ports :: if unit in c.outputs && Due(c, unit) then Cleared(c.ports[unit]) else c.ports[unit])
  }

  /** A sweep part way through: everything but the units in `left` is done. */
  ghost predicate SweptExcept(before: Control, left: set<Unit>, outputs: map<Unit, Record>, ports: map<Unit, Port>) {
    && outputs.Keys <= before.outputs.Keys
    && ports.Keys == before.ports.Keys
    && (forall u | u in before.outputs :: u in outputs <==> u in left || !Due(before, u))
    && (forall u | u in outputs :: outputs[u] == before.outputs[u])
    && (forall u | u in ports ::
          ports[u] == if u in before.outputs && u !in left && Due(before, u) then Cleared(before.ports[u]) else before.ports[u])
  }

  lemma SweptExceptNothing(before: Control, outputs: map<Unit, Record>, ports: map<Unit, Port>)
    requires SweptExcept(before, {}, outputs, ports)
    ensures Control(before.tick, outputs, ports) == Swept(before)
  {
    var swept := Swept(before);
    assert forall u :: u in outputs <==> u in swept.outputs;
    assert forall u :: u in ports <==> u in swept.ports;
    assert forall u | u in ports :: ports[u] == swept.ports[u];
    assert outputs == swept.outputs && ports == swept.ports;
  }

  // ----------------------------------------------------------------------------- whole runs

  /** One tick passing, a write, a removal the mod hears of, one it does not, a port built. */
  datatype Event =
    | Pass
    | Write(request: Request)
    | Removed(unit: Unit)
    | Vanished(unit: Unit)
    | Built(unit: Unit, port: Port)

  datatype Entry = Entry(unit: Unit, tick: int)

  /** The state together with every accepted write since the start. */
  datatype History = History(now: Control, log: seq<Entry>)

  function Invalidated(ports: map<Unit, Port>, unit: Unit): map<Unit, Port> {
    if unit in ports then ports[unit := ports[unit].(valid := false)] else ports
  }

  function Passed(c: Control): Control {
    var later := c.(tick := c.tick + 1);
    if later.tick % SWEEP_INTERVAL == 0 then Swept(later) else later
  }

  ghost function After(h: History, e: Event, known: Catalogue): History {
    match e
    case Pass => h.(now := Passed(h.now))
    case Write(request) =>
      if Accepted(h.now, request, known)
      then History(Written(h.now, request, known), h.log + [Entry(request.target.value, h.now.tick)])
      else h
    case Removed(unit) =>
      h.(now := h.now.(outputs := h.now.outputs - {unit}, ports := Invalidated(h.now.ports, unit)))
    case Vanished(unit) => h.(now := h.now.(ports := Invalidated(h.now.ports, unit)))
    case Built(unit, port) => h.(now := h.now.(ports := h.now.ports[unit := port]))
  }

  /** What the engine guarantees: a port resolves only while it is valid, and unit numbers
      are never used again. */
  ghost predicate Lawful(c: Control, e: Event) {
    && (e.Write? && e.request.target.Ok? ==> e.request.target.value in c.ports && c.ports[e.request.target.value].valid)
    && (e.Built? ==> e.unit !in c.ports)
  }

  ghost function Run(h: History, events: seq<Event>, known: Catalogue): History
    decreases events
  {
    if events == [] then h else Run(After(h, events[0], known), events[1..], known)
  }

  ghost predicate LawfulRun(h: History, events: seq<Event>, known: Catalogue)
    decreases events
  {
    events == [] || (Lawful(h.now, events[0]) && LawfulRun(After(h, events[0], known), events[1..], known))
  }

  function LastSweep(tick: nat): int {
    tick - tick % SWEEP_INTERVAL
  }

  /** A record is no older than its port, clears at least five seconds after its write,
      and has not yet met a sweep at or after its clear tick. */
  ghost predicate Timely(h: History, unit: Unit)
    requires unit in h.now.outputs
  {
    var r := h.now.outputs[unit];
    && unit in h.now.ports
    && h.now.ports[unit].output
    && r.lastChange <= h.now.tick
    && r.clearTick >= r.lastChange + MIN_WRITE_INTERVAL
    && (h.now.ports[unit].valid ==> LastSweep(h.now.tick) < r.clearTick)
    && Entry(unit, r.lastChange) in h.log
  }

  /** A port once written shows its signals exactly while it is in the index. */
  ghost predicate InStep(c: Control, unit: Unit)
    requires unit in c.ports
  {
    && c.ports[unit].output
    && c.ports[unit].section.Some?
    && (c.ports[unit].section.value.active <==> unit in c.outputs)
    && |c.ports[unit].section.value.filters| == if unit in c.outputs then c.outputs[unit].signalCount else 0
  }

  /** A logged write is remembered by the index, or too old to matter. */
  ghost predicate Remembered(c: Control, e: Entry) {
    && e.tick <= c.tick
    && e.unit in c.ports
    && (c.ports[e.unit].valid ==>
          && InStep(c, e.unit)
          && ((e.unit in c.outputs && e.tick <= c.outputs[e.unit].lastChange) || e.tick + MIN_WRITE_INTERVAL <= c.tick))
  }

  ghost predicate Spaced(log: seq<Entry>) {
    forall i, j | 0 <= i < j < |log| && log[i].unit == log[j].unit :: log[i].tick + MIN_WRITE_INTERVAL <= log[j].tick
  }

  ghost predicate Ready(h: History) {
    && |h.now.outputs| <= MAX_OUTPUT_PORTS
    && (forall unit | unit in h.now.outputs :: Timely(h, unit))
    && (forall e | e in h.log :: Remembered(h.now, e))
    && Spaced(h.log)
  }

  lemma SubsetSize<T>(a: set<T>, b: set<T>)
    requires a <= b
    ensures |a| <= |b|
  {
    assert b == a + (b - a);
  }

  lemma StepKeepsCap(h: History, e: Event, known: Catalogue)
    requires |h.now.outputs| <= MAX_OUTPUT_PORTS
    ensures |After(h, e, known).now.outputs| <= MAX_OUTPUT_PORTS
  {
    var before, after := h.now.outputs, After(h, e, known).now.outputs;
    assert |before| == |before.Keys| && |after| == |after.Keys|;
    if e.Write? && Accepted(h.now, e.request, known) {
      assert after.Keys == before.Keys + {e.request.target.value};
    } else {
      SubsetSize(after.Keys, before.Keys);
    }
  }

  lemma PassRemembers(c: Control, e: Entry)
    requires Remembered(c, e)
    requires e.unit in c.outputs ==> c.outputs[e.unit].clearTick >= c.outputs[e.unit].lastChange + MIN_WRITE_INTERVAL
    ensures Remembered(Passed(c), e)
  {
  }

  lemma PassKeepsTimely(h: History, unit: Unit)
    requires unit in h.now.outputs && Timely(h, unit) && unit in Passed(h.now).outputs
    ensures Timely(h.(now := Passed(h.now)), unit)
  {
  }

  /** What is remembered of one write survives a step. */
  lemma StepRemembers(h: History, e: Event, known: Catalogue, entry: Entry)
    requires Lawful(h.now, e) && Remembered(h.now, entry)
    requires entry.unit in h.now.outputs ==> Timely(h, entry.unit)
    ensures Remembered(After(h, e, known).now, entry)
  {
    if e.Pass? {
      PassRemembers(h.now, entry);
    }
  }

  lemma StepKeepsTimely(h: History, e: Event, known: Catalogue, unit: Unit)
    requires Lawful(h.now, e) && unit in After(h, e, known).now.outputs
    requires unit in h.now.outputs ==> Timely(h, unit)
    ensures Timely(After(h, e, known), unit)
  {
    if e.Pass? {
      PassKeepsTimely(h, unit);
    }
  }

  /** The write just accepted is remembered, and five seconds after any other to its port. */
  lemma WriteIsRemembered(h: History, request: Request, known: Catalogue)
    requires Ready(h) && Lawful(h.now, Write(request)) && Accepted(h.now, request, known)
    ensures Remembered(Written(h.now, request, known), Entry(request.target.value, h.now.tick))
    ensures forall e | e in h.log && e.unit == request.target.value :: e.tick + MIN_WRITE_INTERVAL <= h.now.tick
  {
    forall e | e in h.log && e.unit == request.target.value ensures e.tick + MIN_WRITE_INTERVAL <= h.now.tick {
      assert Remembered(h.now, e);
    }
  }

  lemma StepSpaces(h: History, e: Event, known: Catalogue)
    requires Ready(h) && Lawful(h.now, e)
    ensures Spaced(After(h, e, known).log)
    ensures forall entry | entry in After(h, e, known).log && entry !in h.log :: Remembered(After(h, e, known).now, entry)
  {
    if e.Write? && Accepted(h.now, e.request, known) {
      WriteIsRemembered(h, e.request, known);
    }
  }

  /** What every step keeps: the index within its cap, every record timely, every written
      port showing its signals exactly while indexed, accepted writes five seconds apart. */
  lemma StepKeepsReady(h: History, e: Event, known: Catalogue)
    requires Ready(h) && Lawful(h.now, e)
    ensures Ready(After(h, e, known))
  {
    var next := After(h, e, known);
    StepKeepsCap(h, e, known);
    StepSpaces(h, e, known);
    forall unit | unit in next.now.outputs ensures Timely(next, unit) {
      StepKeepsTimely(h, e, known, unit);
    }
    forall entry | entry in h.log ensures Remembered(next.now, entry) {
      StepRemembers(h, e, known, entry);
    }
  }

  lemma {:induction false} RunKeepsReady(h: History, events: seq<Event>, known: Catalogue)
    requires Ready(h) && LawfulRun(h, events, known)
    ensures Ready(Run(h, events, known))
    decreases events
  {
    if events != [] {
      StepKeepsReady(h, events[0], known);
      RunKeepsReady(After(h, events[0], known), events[1..], known);
    }
  }

  /** From an empty index, in every run: any two accepted writes to one port are at least
      300 ticks apart, and the index never exceeds its cap. */
  lemma AcceptedWritesAreSpaced(start: Control, events: seq<Event>, known: Catalogue, i: nat, j: nat)
    requires start.outputs == map[] && LawfulRun(History(start, []), events, known)
    requires i < j < |Run(History(start, []), events, known).log|
    ensures var h := Run(History(start, []), events, known);
            && |h.now.outputs| <= 256
            && (h.log[i].unit == h.log[j].unit ==> h.log[i].tick + 300 <= h.log[j].tick)
  {
    RunKeepsReady(History(start, []), events, known);
  }

  /** Forgetting is harmless: the index refuses a write to a valid port exactly when a
      limiter that never forgot anything would. */
  lemma ForgettingIsHarmless(h: History, unit: Unit)
    requires Ready(h) && unit in h.now.ports && h.now.ports[unit].valid
    ensures RateLimited(h.now, unit) <==> exists e :: e in h.log && e.unit == unit && h.now.tick - e.tick < 300
  {
    if RateLimited(h.now, unit) {
      assert Timely(h, unit);
      assert Entry(unit, h.now.outputs[unit].lastChange) in h.log;
    }
    forall e | e in h.log && e.unit == unit && h.now.tick - e.tick < MIN_WRITE_INTERVAL ensures RateLimited(h.now, unit) {
      assert Remembered(h.now, e);
    }
  }

  // ----------------------------------------------------------------------- how long one lasts

  /** Nothing but time happens to the port. */
  ghost predicate LeavesAlone(e: Event, unit: Unit) {
    match e
    case Pass => true
    case Write(request) => request.target != Ok(unit)
    case Removed(u) => u != unit
    case Vanished(u) => u != unit
    case Built(u, port) => u != unit
  }

  /** The port as it is once `tick` is reached. */
  ghost predicate Lasts(c: Control, unit: Unit, r: Record, section: Section) {
    && unit in c.ports
    && c.ports[unit].valid
    && c.ports[unit].output
    && if LastSweep(c.tick) < r.clearTick
       then unit in c.outputs && c.outputs[unit] == r && c.ports[unit].section == Some(section)
       else unit !in c.outputs && c.ports[unit].section == Some(Section([], false))
  }

  lemma PassLasts(c: Control, unit: Unit, r: Record, section: Section)
    requires Lasts(c, unit, r, section)
    ensures Lasts(Passed(c), unit, r, section)
  {
  }

  lemma StepLasts(h: History, e: Event, known: Catalogue, unit: Unit, r: Record, section: Section)
    requires LeavesAlone(e, unit) && Lasts(h.now, unit, r, section)
    ensures Lasts(After(h, e, known).now, unit, r, section)
  {
    if e.Pass? {
      PassLasts(h.now, unit, r, section);
    }
  }

  /** An output nobody touches keeps its signals, untouched, until the first sweep at or
      after its clear tick, and is empty, inactive and out of the index from then on. */
  lemma {:induction false} OutputLastsExactly(
      h: History, events: seq<Event>, known: Catalogue, unit: Unit, r: Record, section: Section)
    requires Lasts(h.now, unit, r, section)
    requires forall i | 0 <= i < |events| :: LeavesAlone(events[i], unit)
    ensures Lasts(Run(h, events, known).now, unit, r, section)
    decreases events
  {
    if events != [] {
      StepLasts(h, events[0], known, unit, r, section);
      OutputLastsExactly(After(h, events[0], known), events[1..], known, unit, r, section);
    }
  }

  /** Every accepted write starts such a life. */
  lemma WriteStartsLife(c: Control, request: Request, known: Catalogue)
    requires Lawful(c, Write(request)) && Accepted(c, request, known)
    ensures var next, unit := Written(c, request, known), request.target.value;
            Lasts(next, unit, next.outputs[unit], next.ports[unit].section.value)
  {
  }

  /** The port shows exactly the signals asked for. */
  ghost predicate Shows(section: Option<Section>, payload: Value) {
    && section.Some? && section.value.active
    && payload.Table? && Get(payload, "signals").Table? && CarriesAll(section.value.filters, Get(payload, "signals").list)
  }

  /** A write with a time to live of `n` seconds: while nobody touches the port it shows
      exactly the signals asked for until the first sweep at least `n * 60` ticks later,
      whatever happens to other ports, and nothing afterwards. */
  lemma WriteLivesItsTtl(h: History, request: Request, events: seq<Event>, known: Catalogue, seconds: int)
    requires Lawful(h.now, Write(request)) && Accepted(h.now, request, known) && LivesFor(request.payload, seconds)
    requires forall i | 0 <= i < |events| :: LeavesAlone(events[i], request.target.value)
    ensures var c, unit := Run(After(h, Write(request), known), events, known).now, request.target.value;
            && unit in c.ports
            && if c.tick - c.tick % 30 < h.now.tick + 60 * seconds then Shows(c.ports[unit].section, request.payload)
               else c.ports[unit].section == Some(Section([], false))
  {
    var c, unit := Written(h.now, request, known), request.target.value;
    TtlExactly(request.payload);
    GoodSignalsCarried(Get(request.payload, "signals").list, known);
    WriteStartsLife(h.now, request, known);
    OutputLastsExactly(After(h, Write(request), known), events, known, unit, c.outputs[unit], c.ports[unit].section.value);
  }

  /** At every moment of every run, a port that was ever written and still shows its
      signals is at most 28 ticks past its deadline. */
  lemma NothingOutlivesItsDeadline(start: Control, events: seq<Event>, known: Catalogue, e: Entry)
    requires start.outputs == map[] && LawfulRun(History(start, []), events, known)
    requires e in Run(History(start, []), events, known).log
    ensures var c := Run(History(start, []), events, known).now;
            && e.unit in c.ports
            && (c.ports[e.unit].valid ==>
                  && c.ports[e.unit].section.Some?
                  && if e.unit in c.outputs
                     then c.ports[e.unit].section.value.active && c.tick <= c.outputs[e.unit].clearTick + 28
                     else c.ports[e.unit].section.value == Section([], false))
  {
    var h := Run(History(start, []), events, known);
    RunKeepsReady(History(start, []), events, known);
    assert Remembered(h.now, e);
    assert e.unit in h.now.outputs ==> Timely(h, e.unit);
  }

  function Passes(n: nat): (events: seq<Event>)
    ensures |events| == n && forall i | 0 <= i < n :: events[i] == Pass
  {
    seq(n, i => Pass)
  }

  lemma {:induction false} TimePasses(h: History, n: nat, known: Catalogue)
    ensures Run(h, Passes(n), known).now.tick == h.now.tick + n
    decreases n
  {
    if n > 0 {
      assert Passes(n)[1..] == Passes(n - 1);
      TimePasses(After(h, Pass, known), n - 1, known);
    }
  }

  lemma SweepAfter(tick: nat, seconds: nat)
    requires tick % SWEEP_INTERVAL == 1
    ensures LastSweep(tick + 60 * seconds + 28) < tick + 60 * seconds <= LastSweep(tick + 60 * seconds + 29)
  {
    var q := tick / SWEEP_INTERVAL + 2 * seconds;
    assert tick + 60 * seconds == SWEEP_INTERVAL * q + 1;
    assert (SWEEP_INTERVAL * q + 29) % SWEEP_INTERVAL == 29 && (SWEEP_INTERVAL * (q + 1)) % SWEEP_INTERVAL == 0;
  }

  /** The bound is reached by every accepted write right after a sweep: its signals still
      show 28 ticks past the clear tick, and the next tick removes them. */
  lemma DeadlineIsMissedBy28(h: History, request: Request, known: Catalogue, seconds: int)
    requires Lawful(h.now, Write(request)) && Accepted(h.now, request, known) && LivesFor(request.payload, seconds)
    requires h.now.tick % 30 == 1
    ensures seconds >= 5
    ensures var life, unit := 60 * seconds, request.target.value;
            var late := Run(After(h, Write(request), known), Passes(life + 28), known).now;
            var gone := Run(After(h, Write(request), known), Passes(life + 29), known).now;
            && late.tick == h.now.tick + life + 28 && unit in late.ports && Shows(late.ports[unit].section, request.payload)
            && gone.tick == late.tick + 1 && unit in gone.ports && gone.ports[unit].section == Some(Section([], false))
  {
    TtlExactly(request.payload);
    SweepAfter(h.now.tick, seconds);
    TimePasses(After(h, Write(request), known), 60 * seconds + 28, known);
    TimePasses(After(h, Write(request), known), 60 * seconds + 29, known);
    WriteLivesItsTtl(h, request, Passes(60 * seconds + 28), known, seconds);
    WriteLivesItsTtl(h, request, Passes(60 * seconds + 29), known, seconds);
  }

  // ------------------------------------------------------------------------------- the class

  datatype Receipt = Receipt(unit: Unit, signalCount: nat, changedTick: int, clearTick: int)

  class OutputControl {
    var tick: nat
    var outputs: map<Unit, Record>
    var ports: map<Unit, Port>

    ghost function View(): Control
      reads this
    {
      Control(tick, outputs, ports)
    }

    /** `write_port`: carried out whole, or refused with nothing changed. */
    method WritePort(request: Request, known: Catalogue) returns (receipt: Result<Receipt>)
      requires request.target.Ok? ==> request.target.value in ports
      modifies this`outputs, this`ports
      ensures receipt.Ok? <==> Accepted(old(View()), request, known)
      ensures receipt.Ok? ==> View() == Written(old(View()), request, known)
      ensures receipt.Ok? ==>
                var unit := request.target.value;
                receipt.value == Receipt(unit, outputs[unit].signalCount, outputs[unit].lastChange, outputs[unit].clearTick)
      ensures receipt.Err? ==> View() == old(View())
      ensures WellShaped(request.payload) && request.target.Err? ==> receipt == Err(request.target.code)
      ensures receipt == Err("CONTROL_PORT_RATE_LIMITED") && request.target.Ok? ==> RateLimited(old(View()), request.target.value)
      ensures receipt == Err("CONTROL_PORT_BUDGET_EXCEEDED") && request.target.Ok? ==>
                request.target.value !in old(outputs) && |old(outputs)| >= MAX_OUTPUT_PORTS
    {
      if !WellShaped(request.payload) {
        return Err("INVALID_SIGNALS");
      }
      if request.target.Err? {
        return Err(request.target.code);
      }
      var unit := request.target.value;
      if !ports[unit].output {
        return Err("NOT_AI_OUTPUT_PORT");
      }
      var ttl := TtlOf(request.payload);
      if !IntegerIn(ttl, 5, 3600) {
        return Err("INVALID_TTL");
      }
      if unit in outputs && tick - outputs[unit].lastChange < MIN_WRITE_INTERVAL {
        return Err("CONTROL_PORT_RATE_LIMITED");
      }
      if unit !in outputs && |outputs| >= MAX_OUTPUT_PORTS {
        return Err("CONTROL_PORT_BUDGET_EXCEEDED");
      }
      var signals := Get(request.payload, "signals").list;
      var built := BuildFilters(signals, known);
      if built.Err? {
        return Err(built.code);
      }
      if ports[unit].section.None? && !request.sectionAvailable {
        return Err("CONTROL_PORT_UNAVAILABLE");
      }
      var filters := built.value;
      assert filters == Filters(signals, known);
      var clearTick := tick + ttl.number.Floor * 60;
      ports := ports[unit := ports[unit].(section := Some(Section(filters, true)))];
      outputs := outputs[unit := Record(tick, clearTick, |filters|)];
      receipt := Ok(Receipt(unit, |filters|, tick, clearTick));
    }

    /** `tick`: the index is walked in whatever order `pairs` gives. */
    method Tick()
      modifies this`outputs, this`ports
      ensures View() == if tick % SWEEP_INTERVAL == 0 then Swept(old(View())) else old(View())
    {
      if tick % SWEEP_INTERVAL != 0 {
        return;
      }
      ghost var before := View();
      var left := outputs.Keys;
      while left != {}
        invariant left <= outputs.Keys
        invariant SweptExcept(before, left, outputs, ports)
        decreases |left|
      {
        var unit :| unit in left;
        left := left - {unit};
        if tick >= outputs[unit].clearTick || unit !in ports || !ports[unit].valid {
          if unit in ports {
            ports := ports[unit := Cleared(ports[unit])];
          }
          outputs := outputs - {unit};
        }
      }
      SweptExceptNothing(before, outputs, ports);
    }

    method OnEntityRemoved(unit: Unit)
      modifies this`outputs
      ensures outputs == old(outputs) - {unit}
    {
      outputs := outputs - {unit};
    }
  }
}
