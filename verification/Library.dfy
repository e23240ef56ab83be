/** The whole library: every player's inbox and the one identifier counter, and what
    any run of calls does to them. */
module Library {
  import opened LuaValues
  import opened Canonical
  import opened Inboxes
  import opened Books
  import opened Ids
  import opened Migration
  import opened MigrationLaws

  datatype World = World(inboxes: map<nat, Inbox>, nextId: nat)

  /** One call past its engine-dependent parts: `Save` carries the canonical layout of
      a validated request, its encoded size and whether cursor delivery (if asked for)
      worked; `Migrate` carries the stored table a call found in place of an inbox and the
      records of it that survived canonicalisation. */
  datatype Request =
    | Save(canonical: Value, bytes: nat, delivered: bool)
    | Delete(id: Value)
    | CreateBook(name: Value, ids: Value, description: Value)
    | UpdateBook(payload: Value)
    | DeleteBook(id: Value)
    | Migrate(stored: Value, candidates: seq<Record>)

  datatype Call = Call(player: nat, now: Value, request: Request)

  function InboxOf(w: World, player: nat): Inbox {
    if player in w.inboxes then w.inboxes[player] else EMPTY_INBOX
  }

  function NewRecord(id: string, canonical: Value, bytes: nat, now: Value): Record
  {
    var name := Lookup(canonical, "name");
    Record(id, if name.Str? then name.text else "", bytes, now, now, [Revision(Num(1.0), canonical)])
  }

  /** Requests answered with an error before the inbox is looked up. */
  predicate Refused(request: Request) {
    match request
    case Save(canonical, bytes, _) => bytes > MAX_BLUEPRINT_BYTES_PER_PLAYER
    case Delete(id) => !id.Str?
    case CreateBook(name, _, description) => !ValidString(name, 100) || DescriptionRefused(description)
    case UpdateBook(payload) => !payload.Table? || !Get(payload, "bookId").Str?
    case DeleteBook(id) => !id.Str?
    case Migrate(_, _) => false
  }

  /** Whether the request takes an identifier from the counter. */
  predicate Mints(inbox: Inbox, request: Request) {
    match request
    case Save(_, _, delivered) => delivered
    case CreateBook(_, ids, _) =>
      CollectMembers(ids, inbox.byId.Keys, {}).Ok? && |inbox.bookOrder| < MAX_BOOKS_PER_PLAYER
    case _ => false
  }

  function BookDeleted(inbox: Inbox, id: string): Inbox {
    inbox.(books := inbox.books - {id}, bookOrder := Without(inbox.bookOrder, {id}))
  }

  function BookCreated(inbox: Inbox, book: Book): Inbox {
    inbox.(books := inbox.books[book.id := book], bookOrder := inbox.bookOrder + [book.id])
  }

  function BookUpdated(inbox: Inbox, id: string, payload: Value, now: Value): Inbox
    requires payload.Table?
  {
    if id !in inbox.books then inbox
    else
      var edited := Edited(inbox.books[id], payload, inbox.byId.Keys, now);
      if edited.Err? then inbox else inbox.(books := inbox.books[id := edited.value])
  }

  /** The caller's inbox after a request that was not refused outright. */
  function After(inbox: Inbox, call: Call, number: nat): Inbox
    requires !Refused(call.request)
  {
    match call.request
    case Save(canonical, bytes, delivered) =>
      if delivered
      then Saved(inbox, NewRecord(BlueprintId(call.player, number), canonical, bytes, call.now), call.now)
      else inbox
    case Delete(id) =>
      if id.text in inbox.byId then Deleted(inbox, id.text, call.now) else inbox
    case CreateBook(name, ids, description) =>
      if Mints(inbox, call.request)
      then
        var members := CollectMembers(ids, inbox.byId.Keys, {}).value;
        BookCreated(inbox, Book(BookId(call.player, number), name.text, DescriptionOf(description), members, call.now, call.now))
      else inbox
    case UpdateBook(payload) => BookUpdated(inbox, Get(payload, "bookId").text, payload, call.now)
    case DeleteBook(id) => if id.text in inbox.books then BookDeleted(inbox, id.text) else inbox
    case Migrate(stored, candidates) => InboxFrom(stored, candidates)
  }

  function Next(w: World, call: Call): World
  {
    if Refused(call.request) then w
    else
      var inbox := InboxOf(w, call.player);
      World(w.inboxes[call.player := After(inbox, call, w.nextId)],
            if Mints(inbox, call.request) then w.nextId + 1 else w.nextId)
  }

  /** What one call does to the caller's inbox and to the counter. */
  ghost predicate Stepped(before: Inbox, number: nat, call: Call, after: Inbox, next: nat) {
    if Refused(call.request) then after == before && next == number
    else
      && after == After(before, call, number)
      && next == if Mints(before, call.request) then number + 1 else number
  }

  /** A call of the many-player world is a step of its caller's inbox and nobody else's. */
  lemma NextIsAStep(w: World, call: Call)
    ensures Stepped(InboxOf(w, call.player), w.nextId, call, InboxOf(Next(w, call), call.player), Next(w, call).nextId)
    ensures forall p | p != call.player :: InboxOf(Next(w, call), p) == InboxOf(w, p)
  {
  }

  // ------------------------------------------------------------------------ one invariant

  /** No identifier of the inbox is one the counter has yet to hand out. */
  ghost predicate Fresh(inbox: Inbox, player: nat, next: nat) {
    && (forall n: nat | next <= n :: BlueprintId(player, n) !in inbox.byId)
    && (forall n: nat | next <= n :: BookId(player, n) !in inbox.books)
  }

  ghost predicate WorldWellFormed(w: World) {
    forall p | p in w.inboxes :: Kept(w.inboxes[p], p, w.nextId)
  }

  ghost predicate Kept(inbox: Inbox, player: nat, next: nat) {
    WellFormed(inbox) && Fresh(inbox, player, next)
  }

  /** A stored table lists no identifier its player has yet to be given. */
  ghost predicate Past(stored: Value, player: nat, next: nat) {
    && (forall n: nat | next <= n :: Str(BlueprintId(player, n)) !in ListIn(Lookup(stored, "order")))
    && (forall n: nat | next <= n :: Str(BookId(player, n)) !in ListIn(Lookup(stored, "book_order")))
  }

  /** What a call carries: a validated name, or any stored table at all that lists no
      identifier still to come, with the records of it that survive. */
  ghost predicate Sound(w: World, call: Call, encode: Encoder) {
    match call.request
    case Save(canonical, _, _) => canonical.Table? && ValidString(Get(canonical, "name"), 100)
    case Migrate(stored, candidates) => Past(stored, call.player, w.nextId) && Survivors(stored, encode, candidates)
    case _ => true
  }

  lemma PastStays(stored: Value, player: nat, next: nat, later: nat)
    requires Past(stored, player, next) && next <= later
    ensures Past(stored, player, later)
  {
  }

  /** Rebuilding a table that lists nothing to come gives a well-formed inbox whose future
      identifiers are unused. */
  lemma MigrationIsKept(stored: Value, encode: Encoder, candidates: seq<Record>, inbox: Inbox, player: nat, next: nat)
    requires MigratedTo(stored, encode, candidates, inbox) && Past(stored, player, next)
    ensures Kept(inbox, player, next)
  {
    MigrationIsWellFormed(stored, encode, candidates, inbox);
    MigrationBringsNothing(stored, encode, candidates, inbox);
  }

  /** The stored form of a kept inbox, under any schema number, is such a table: whenever
      the schema moves on, the migration of what the library itself stored is sound. */
  lemma StoredFormIsPast(inbox: Inbox, schema: Value, player: nat, next: nat)
    requires Kept(inbox, player, next)
    ensures Past(StoredForm(inbox, schema), player, next)
  {
    StoredFormGet(inbox, schema);
    forall id: string ensures Str(id) in Strs(inbox.order) ==> id in inbox.byId {
    }
    forall id: string ensures Str(id) in Strs(inbox.bookOrder) ==> id in inbox.books {
    }
  }

  lemma BookCreateKeepsWellFormed(inbox: Inbox, book: Book)
    requires WellFormed(inbox) && book.id !in inbox.books && |inbox.bookOrder| < MAX_BOOKS_PER_PLAYER
    requires BookSound(book.id, book, inbox.byId)
    ensures WellFormed(BookCreated(inbox, book))
  {
    var next := BookCreated(inbox, book);
    assert forall id | id in inbox.books :: next.books[id] == if id == book.id then book else inbox.books[id];
  }

  lemma BookDeleteKeepsWellFormed(inbox: Inbox, id: string)
    requires WellFormed(inbox)
    ensures WellFormed(BookDeleted(inbox, id))
  {
    WithoutElements(inbox.bookOrder, {id});
  }

  lemma BookUpdateKeepsWellFormed(inbox: Inbox, id: string, payload: Value, now: Value)
    requires WellFormed(inbox) && payload.Table?
    ensures WellFormed(BookUpdated(inbox, id, payload, now))
  {
    if id in inbox.books {
      var edited := Edited(inbox.books[id], payload, inbox.byId.Keys, now);
      if edited.Ok? {
        EditKeepsSound(id, inbox.books[id], payload, inbox.byId, now);
      }
    }
  }

  lemma AfterKeepsWellFormed(inbox: Inbox, call: Call, w: World, encode: Encoder)
    requires WellFormed(inbox) && Fresh(inbox, call.player, w.nextId)
    requires Sound(w, call, encode) && !Refused(call.request)
    ensures WellFormed(After(inbox, call, w.nextId))
  {
    match call.request
    case Save(canonical, bytes, delivered) =>
      if delivered {
        SaveKeepsWellFormed(inbox, NewRecord(BlueprintId(call.player, w.nextId), canonical, bytes, call.now), call.now);
      }
    case Delete(id) =>
      if id.text in inbox.byId {
        DeleteKeepsWellFormed(inbox, id.text, call.now);
      }
    case CreateBook(name, ids, description) =>
      if Mints(inbox, call.request) {
        CollectExact(ids, inbox.byId.Keys, {});
        var members := CollectMembers(ids, inbox.byId.Keys, {}).value;
        BookCreateKeepsWellFormed(
          inbox, Book(BookId(call.player, w.nextId), name.text, DescriptionOf(description), members, call.now, call.now));
      }
    case UpdateBook(payload) =>
      BookUpdateKeepsWellFormed(inbox, Get(payload, "bookId").text, payload, call.now);
    case DeleteBook(id) =>
      BookDeleteKeepsWellFormed(inbox, id.text);
    case Migrate(stored, candidates) =>
      MigrationIsKept(stored, encode, candidates, InboxFrom(stored, candidates), call.player, w.nextId);
  }

  /** The only new keys a call can leave behind carry the number it minted. */
  lemma AfterKeys(inbox: Inbox, call: Call, number: nat)
    requires !Refused(call.request) && !call.request.Migrate?
    ensures var next := After(inbox, call, number);
            && (forall id | id in next.byId && id !in inbox.byId :: id == BlueprintId(call.player, number) && Mints(inbox, call.request))
            && (forall id | id in next.books && id !in inbox.books :: id == BookId(call.player, number) && Mints(inbox, call.request))
  {
  }

  lemma AfterStaysFresh(inbox: Inbox, call: Call, w: World, encode: Encoder)
    requires Fresh(inbox, call.player, w.nextId) && Sound(w, call, encode) && !Refused(call.request)
    ensures Fresh(After(inbox, call, w.nextId), call.player, if Mints(inbox, call.request) then w.nextId + 1 else w.nextId)
  {
    if !call.request.Migrate? {
      AfterKeys(inbox, call, w.nextId);
      var next := After(inbox, call, w.nextId);
      var from := if Mints(inbox, call.request) then w.nextId + 1 else w.nextId;
      forall n: nat | from <= n ensures BlueprintId(call.player, n) !in next.byId && BookId(call.player, n) !in next.books {
        IdsInjective(call.player, n, call.player, w.nextId);
      }
    } else {
      var stored, candidates := call.request.stored, call.request.candidates;
      MigrationIsKept(stored, encode, candidates, InboxFrom(stored, candidates), call.player, w.nextId);
    }
  }

  /** One call, by any player, keeps every inbox well formed and every future
      identifier unused, and touches no inbox but the caller's. */
  lemma NextKeepsWellFormed(w: World, call: Call, encode: Encoder)
    requires WorldWellFormed(w) && Sound(w, call, encode)
    ensures WorldWellFormed(Next(w, call))
    ensures Next(w, call).inboxes - {call.player} == w.inboxes - {call.player}
    ensures w.nextId <= Next(w, call).nextId
  {
    NextIsKept(w, call, encode);
    OnlyCallerMoves(w, call);
  }

  lemma NextIsKept(w: World, call: Call, encode: Encoder)
    requires WorldWellFormed(w) && Sound(w, call, encode)
    ensures WorldWellFormed(Next(w, call))
  {
    forall p | p in Next(w, call).inboxes ensures Kept(Next(w, call).inboxes[p], p, Next(w, call).nextId) {
      KeptAt(w, call, p, encode);
    }
  }

  lemma OnlyCallerMoves(w: World, call: Call)
    ensures Next(w, call).inboxes - {call.player} == w.inboxes - {call.player}
    ensures w.nextId <= Next(w, call).nextId
  {
  }

  lemma KeptAt(w: World, call: Call, p: nat, encode: Encoder)
    requires WorldWellFormed(w) && Sound(w, call, encode) && p in Next(w, call).inboxes
    ensures Kept(Next(w, call).inboxes[p], p, Next(w, call).nextId)
  {
    if Refused(call.request) {
    } else if p == call.player {
      CallerIsKept(InboxOf(w, p), call, w, encode);
    } else {
      StaysKept(w.inboxes[p], p, w.nextId, Next(w, call).nextId);
    }
  }

  lemma StaysKept(inbox: Inbox, player: nat, next: nat, later: nat)
    requires Kept(inbox, player, next) && next <= later
    ensures Kept(inbox, player, later)
  {
  }

  lemma CallerIsKept(inbox: Inbox, call: Call, w: World, encode: Encoder)
    requires inbox == EMPTY_INBOX || Kept(inbox, call.player, w.nextId)
    requires Sound(w, call, encode) && !Refused(call.request)
    ensures Kept(After(inbox, call, w.nextId), call.player, if Mints(inbox, call.request) then w.nextId + 1 else w.nextId)
  {
    AfterKeepsWellFormed(inbox, call, w, encode);
    AfterStaysFresh(inbox, call, w, encode);
  }

  /** Any step keeps the caller's inbox well formed and its future identifiers unused, so the
      methods that promise a step keep what they require. */
  lemma StepKeeps(before: Inbox, number: nat, call: Call, after: Inbox, next: nat, encode: Encoder)
    requires Kept(before, call.player, number) && Stepped(before, number, call, after, next)
    requires Sound(World(map[], number), call, encode)
    ensures Kept(after, call.player, next)
  {
    if !Refused(call.request) {
      CallerIsKept(before, call, World(map[], number), encode);
    }
  }

  lemma InboxIsKept(w: World, player: nat)
    requires WorldWellFormed(w)
    ensures Kept(InboxOf(w, player), player, w.nextId)
  {
    if player in w.inboxes {
      assert Kept(w.inboxes[player], player, w.nextId);
    }
  }

  // -------------------------------------------------------------------------- whole runs

  /** The world after a run of calls. */
  ghost function Run(w: World, calls: seq<Call>): World
    decreases calls
  {
    if calls == [] then w else Run(Next(w, calls[0]), calls[1..])
  }

  /** Each call of the run carries a validated layout, or a stored table from the past. */
  ghost predicate SoundRun(w: World, calls: seq<Call>, encode: Encoder)
    decreases calls
  {
    calls == [] || (Sound(w, calls[0], encode) && SoundRun(Next(w, calls[0]), calls[1..], encode))
  }

  /** Every run of calls, over any number of players, keeps every inbox well formed. */
  lemma {:induction false} RunKeepsWellFormed(w: World, calls: seq<Call>, encode: Encoder)
    requires WorldWellFormed(w) && SoundRun(w, calls, encode)
    ensures WorldWellFormed(Run(w, calls))
    ensures forall p | forall i | 0 <= i < |calls| :: calls[i].player != p :: InboxOf(Run(w, calls), p) == InboxOf(w, p)
    decreases calls
  {
    if calls != [] {
      NextKeepsWellFormed(w, calls[0], encode);
      RunKeepsWellFormed(Next(w, calls[0]), calls[1..], encode);
      forall p | forall i | 0 <= i < |calls| :: calls[i].player != p
        ensures InboxOf(Run(w, calls), p) == InboxOf(w, p)
      {
        assert calls[0].player != p;
        assert forall i | 0 <= i < |calls[1..]| :: calls[1..][i] == calls[i + 1] && calls[1..][i].player != p;
        OthersUntouched(w, calls[0], p);
      }
    }
  }

  /** After any run the library's own stored form of an inbox, under any schema number,
      may be migrated: a schema change at any moment keeps every inbox well formed. */
  lemma UpgradeAfterAnyRun(
      w: World, calls: seq<Call>, player: nat, schema: Value, candidates: seq<Record>, now: Value, encode: Encoder)
    requires WorldWellFormed(w) && SoundRun(w, calls, encode)
    requires Survivors(StoredForm(InboxOf(Run(w, calls), player), schema), encode, candidates)
    ensures var later := Run(w, calls);
            var upgrade := Call(player, now, Migrate(StoredForm(InboxOf(later, player), schema), candidates));
            Sound(later, upgrade, encode) && WorldWellFormed(Next(later, upgrade))
  {
    RunKeepsWellFormed(w, calls, encode);
    var later := Run(w, calls);
    var upgrade := Call(player, now, Migrate(StoredForm(InboxOf(later, player), schema), candidates));
    InboxIsKept(later, player);
    StoredFormIsPast(InboxOf(later, player), schema, player, later.nextId);
    NextKeepsWellFormed(later, upgrade, encode);
  }

  lemma OthersUntouched(w: World, call: Call, p: nat)
    requires call.player != p
    ensures InboxOf(Next(w, call), p) == InboxOf(w, p)
  {
  }

  /** The identifiers a run hands out, in order. */
  ghost function Minted(w: World, calls: seq<Call>): seq<string>
    decreases calls
  {
    if calls == [] then []
    else
      var call := calls[0];
      var own :=
        if Refused(call.request) || !Mints(InboxOf(w, call.player), call.request) then []
        else if call.request.Save? then [BlueprintId(call.player, w.nextId)]
        else [BookId(call.player, w.nextId)];
      own + Minted(Next(w, call), calls[1..])
  }

  /** An identifier some player could be given for a number at or above `next`. */
  ghost predicate Upcoming(id: string, next: nat) {
    exists p: nat, n: nat :: next <= n && (id == BlueprintId(p, n) || id == BookId(p, n))
  }

  lemma {:induction false} MintedAreUpcoming(w: World, calls: seq<Call>)
    ensures forall id | id in Minted(w, calls) :: Upcoming(id, w.nextId)
    decreases calls
  {
    if calls != [] {
      MintedAreUpcoming(Next(w, calls[0]), calls[1..]);
    }
  }

  lemma NotUpcoming(p: nat, n: nat, next: nat)
    requires n < next
    ensures !Upcoming(BlueprintId(p, n), next) && !Upcoming(BookId(p, n), next)
  {
    forall q: nat, m: nat | next <= m
      ensures BlueprintId(p, n) != BlueprintId(q, m) && BlueprintId(p, n) != BookId(q, m)
      ensures BookId(p, n) != BlueprintId(q, m) && BookId(p, n) != BookId(q, m)
    {
      IdsInjective(p, n, q, m);
      IdsInjective(q, m, p, n);
    }
  }

  /** No identifier is ever handed out twice, to any player, for either kind, not even
      after the record that carried it was deleted or evicted. */
  lemma {:induction false} IdentifiersAreNeverReused(w: World, calls: seq<Call>)
    ensures Distinct(Minted(w, calls))
    decreases calls
  {
    if calls != [] {
      var call := calls[0];
      var later := Minted(Next(w, call), calls[1..]);
      IdentifiersAreNeverReused(Next(w, call), calls[1..]);
      MintedAreUpcoming(Next(w, call), calls[1..]);
      NotUpcoming(call.player, w.nextId, w.nextId + 1);
    }
  }
}
