/** Every list of the library is in the order its identifiers were handed out, so whatever
    is evicted was saved before whatever stays. */
module Chronicle {
  import opened LuaValues
  import opened Inboxes
  import opened Ids
  import opened Migration
  import opened MigrationLaws
  import opened MigrationOrder
  import opened Library
  import opened Outcomes

  /** The two kinds of identifier. */
  datatype Kind = Blueprints | Books

  function Numbered(kind: Kind, player: nat, number: nat): string {
    if kind.Books? then BookId(player, number) else BlueprintId(player, number)
  }

  /** Every entry is one of the player's identifiers, minted before `next`, and earlier
      entries carry lower numbers. */
  ghost predicate ByNumber(order: seq<string>, kind: Kind, player: nat, next: nat) {
    && (forall id | id in order :: exists n: nat :: n < next && id == Numbered(kind, player, n))
    && forall m: nat, n: nat | Before(order, Numbered(kind, player, m), Numbered(kind, player, n)) :: m < n
  }

  lemma NumberedInjective(kind: Kind, p: nat, m: nat, n: nat)
    requires Numbered(kind, p, m) == Numbered(kind, p, n)
    ensures m == n
  {
    IdsInjective(p, m, p, n);
  }

  lemma KeptStaysByNumber(kept: seq<string>, order: seq<string>, kind: Kind, player: nat, next: nat, later: nat)
    requires ByNumber(order, kind, player, next) && next <= later
    requires InOrderOf(kept, order) && forall id | id in kept :: id in order
    ensures ByNumber(kept, kind, player, later)
  {
    forall m: nat, n: nat | Before(kept, Numbered(kind, player, m), Numbered(kind, player, n)) ensures m < n {
      var i, j :| 0 <= i < j < |kept| && kept[i] == Numbered(kind, player, m) && kept[j] == Numbered(kind, player, n);
      assert Before(order, kept[i], kept[j]);
    }
  }

  lemma NewestStaysByNumber(order: seq<string>, kind: Kind, player: nat, next: nat)
    requires ByNumber(order, kind, player, next)
    ensures ByNumber(order + [Numbered(kind, player, next)], kind, player, next + 1)
  {
    var longer := order + [Numbered(kind, player, next)];
    forall id | id in longer ensures exists n: nat :: n < next + 1 && id == Numbered(kind, player, n) {
      if id in order {
        var n: nat :| n < next && id == Numbered(kind, player, n);
      }
    }
    forall m: nat, n: nat | Before(longer, Numbered(kind, player, m), Numbered(kind, player, n)) ensures m < n {
      var i, j :| 0 <= i < j < |longer| && longer[i] == Numbered(kind, player, m) && longer[j] == Numbered(kind, player, n);
      assert longer[i] in order;
      var a: nat :| a < next && longer[i] == Numbered(kind, player, a);
      NumberedInjective(kind, player, m, a);
      if j == |order| {
        NumberedInjective(kind, player, n, next);
      } else {
        assert Before(order, order[i], order[j]);
      }
    }
  }

  lemma SuffixInOrder(order: seq<string>, k: nat)
    requires k <= |order|
    ensures InOrderOf(order[k..], order) && forall id | id in order[k..] :: id in order
  {
    forall i, j | 0 <= i < j < |order| - k ensures Before(order, order[k..][i], order[k..][j]) {
      assert order[k + i] == order[k..][i] && order[k + j] == order[k..][j];
    }
  }

  // ----------------------------------------------------------------------------- one call

  /** Both lists of an inbox. */
  ghost predicate Dated(inbox: Inbox, player: nat, next: nat) {
    ByNumber(inbox.order, Blueprints, player, next) && ByNumber(inbox.bookOrder, Books, player, next)
  }

  ghost predicate DatedWorld(w: World) {
    forall p | p in w.inboxes :: Dated(w.inboxes[p], p, w.nextId)
  }

  /** A stored list that names the player's identifiers only, for the first time in
      ascending number: what the library itself stores is such a list. */
  ghost predicate OrderlyList(list: seq<Value>, kind: Kind, player: nat) {
    && (forall id | Str(id) in list :: exists n: nat :: id == Numbered(kind, player, n))
    && forall m: nat, n: nat | FirstBefore(list, Numbered(kind, player, m), Numbered(kind, player, n)) :: m < n
  }

  ghost predicate OrderlyCall(call: Call) {
    call.request.Migrate? ==>
      && OrderlyList(StoredIds(call.request.stored, "order"), Blueprints, call.player)
      && OrderlyList(StoredIds(call.request.stored, "book_order"), Books, call.player)
  }

  lemma RebuiltByNumber(kept: seq<string>, list: seq<Value>, kind: Kind, player: nat, next: nat)
    requires OrderlyList(list, kind, player) && InFirstOrder(kept, list) && forall id | id in kept :: Str(id) in list
    requires forall n: nat | next <= n :: Str(Numbered(kind, player, n)) !in list
    ensures ByNumber(kept, kind, player, next)
  {
    forall m: nat, n: nat | Before(kept, Numbered(kind, player, m), Numbered(kind, player, n)) ensures m < n {
      var i, j :| 0 <= i < j < |kept| && kept[i] == Numbered(kind, player, m) && kept[j] == Numbered(kind, player, n);
      assert FirstBefore(list, kept[i], kept[j]);
    }
    forall id | id in kept ensures exists n: nat :: n < next && id == Numbered(kind, player, n) {
      var n: nat :| id == Numbered(kind, player, n);
      assert n < next;
    }
  }

  lemma MigrationDates(stored: Value, candidates: seq<Record>, player: nat, next: nat, encode: Encoder)
    requires Survivors(stored, encode, candidates) && Past(stored, player, next)
    requires OrderlyList(StoredIds(stored, "order"), Blueprints, player)
    requires OrderlyList(StoredIds(stored, "book_order"), Books, player)
    ensures Dated(InboxFrom(stored, candidates), player, next)
  {
    var inbox := InboxFrom(stored, candidates);
    MigratedRecordsInOrder(stored, encode, candidates, inbox);
    MigratedBooksInOrder(stored, encode, candidates, inbox);
    MigrationBringsNothing(stored, encode, candidates, inbox);
    MigrationIsWellFormed(stored, encode, candidates, inbox);
    RebuiltByNumber(inbox.order, StoredIds(stored, "order"), Blueprints, player, next);
    RebuiltByNumber(inbox.bookOrder, StoredIds(stored, "book_order"), Books, player, next);
  }

  lemma SaveDates(before: Inbox, number: nat, call: Call, after: Inbox, next: nat)
    requires WellFormed(before) && Dated(before, call.player, number) && call.request.Save? && call.request.delivered
    requires call.request.bytes <= 524288 && call.request.canonical.Table? && Get(call.request.canonical, "name").Str?
    requires Stepped(before, number, call, after, next)
    ensures Dated(after, call.player, next)
  {
    SaveOutcome(before, call.player, number, call.request.canonical, call.request.bytes, call.now, after, next);
    BookIdText(call.player, number);
    AppendedStaysByNumber(before.order, |before.order| + 1 - |after.order|, call.player, number);
    SameStaysByNumber(before.bookOrder, Books, call.player, number, next);
  }

  lemma AppendedStaysByNumber(order: seq<string>, k: nat, player: nat, number: nat)
    requires ByNumber(order, Blueprints, player, number) && k <= |order|
    ensures ByNumber(order[k..] + [BlueprintId(player, number)], Blueprints, player, number + 1)
  {
    SuffixInOrder(order, k);
    KeptStaysByNumber(order[k..], order, Blueprints, player, number, number);
    NewestStaysByNumber(order[k..], Blueprints, player, number);
  }

  lemma SameStaysByNumber(order: seq<string>, kind: Kind, player: nat, next: nat, later: nat)
    requires ByNumber(order, kind, player, next) && next <= later
    ensures ByNumber(order, kind, player, later)
  {
    forall i, j | 0 <= i < j < |order| ensures Before(order, order[i], order[j]) {
    }
    KeptStaysByNumber(order, order, kind, player, next, later);
  }

  lemma CreateDates(before: Inbox, number: nat, call: Call, after: Inbox, next: nat)
    requires Dated(before, call.player, number) && call.request.CreateBook? && Stepped(before, number, call, after, next)
    ensures Dated(after, call.player, next)
  {
    var r := call.request;
    CreateBookOutcome(before, call.player, number, r.name, r.ids, r.description, call.now, after, next);
    BookIdText(call.player, number);
    NewestStaysByNumber(before.bookOrder, Books, call.player, number);
    SameStaysByNumber(before.order, Blueprints, call.player, number, next);
  }

  lemma DeletionDates(before: Inbox, number: nat, call: Call, after: Inbox, next: nat)
    requires WellFormed(before) && Dated(before, call.player, number) && Stepped(before, number, call, after, next)
    requires (call.request.Delete? || call.request.DeleteBook?) && call.request.id.Str?
    ensures Dated(after, call.player, next)
  {
    if call.request.Delete? {
      DeleteOutcome(before, call.request.id.text, call.now, call.player, number, after, next);
      if call.request.id.text in before.byId {
        KeptStaysByNumber(after.order, before.order, Blueprints, call.player, number, next);
      }
    } else {
      DeleteBookOutcome(before, call.request.id.text, call.now, call.player, number, after, next);
      if call.request.id.text in before.books {
        KeptStaysByNumber(after.bookOrder, before.bookOrder, Books, call.player, number, next);
      }
    }
  }

  /** Whatever one step does, both lists stay in the order of their numbers. */
  lemma StepDates(before: Inbox, number: nat, call: Call, after: Inbox, next: nat, encode: Encoder)
    requires WellFormed(before) && Dated(before, call.player, number) && OrderlyCall(call)
    requires Sound(World(map[], number), call, encode) && Stepped(before, number, call, after, next)
    ensures Dated(after, call.player, next)
  {
    if !Refused(call.request) {
      match call.request
      case Save(canonical, bytes, delivered) => if delivered { SaveDates(before, number, call, after, next); }
      case Delete(id) => DeletionDates(before, number, call, after, next);
      case CreateBook(_, _, _) => CreateDates(before, number, call, after, next);
      case UpdateBook(payload) => UpdateBookOutcome(before, payload, call.now, call.player, number, after, next);
      case DeleteBook(id) => DeletionDates(before, number, call, after, next);
      case Migrate(stored, candidates) => MigrationDates(stored, candidates, call.player, number, encode);
    }
  }

  lemma StoredListIsOrderly(order: seq<string>, kind: Kind, player: nat, next: nat)
    requires ByNumber(order, kind, player, next)
    ensures OrderlyList(Strs(order), kind, player)
  {
    forall id | Str(id) in Strs(order) ensures exists n: nat :: id == Numbered(kind, player, n) {
      var i :| 0 <= i < |order| && Strs(order)[i] == Str(id);
      assert order[i] in order;
    }
    forall m: nat, n: nat | FirstBefore(Strs(order), Numbered(kind, player, m), Numbered(kind, player, n)) ensures m < n {
      var a: nat, b: nat :| a < b && FirstAt(Strs(order), a, Numbered(kind, player, m)) && FirstAt(Strs(order), b, Numbered(kind, player, n));
      assert order[a] == Numbered(kind, player, m) && order[b] == Numbered(kind, player, n);
    }
  }

  /** What the library itself stored may be migrated, under any schema number. */
  lemma StoredFormIsOrderly(inbox: Inbox, player: nat, next: nat, schema: Value)
    requires Dated(inbox, player, next)
    ensures OrderlyList(StoredIds(StoredForm(inbox, schema), "order"), Blueprints, player)
    ensures OrderlyList(StoredIds(StoredForm(inbox, schema), "book_order"), Books, player)
  {
    StoredFormGet(inbox, schema);
    StoredListIsOrderly(inbox.order, Blueprints, player, next);
    StoredListIsOrderly(inbox.bookOrder, Books, player, next);
  }

  // -------------------------------------------------------------------------- whole runs

  lemma NextDates(w: World, call: Call, encode: Encoder)
    requires WorldWellFormed(w) && DatedWorld(w) && Sound(w, call, encode) && OrderlyCall(call)
    ensures DatedWorld(Next(w, call))
  {
    var later := Next(w, call);
    OnlyCallerMoves(w, call);
    NextIsAStep(w, call);
    InboxIsKept(w, call.player);
    forall p | p in later.inboxes ensures Dated(later.inboxes[p], p, later.nextId) {
      if p == call.player {
        StepDates(InboxOf(w, p), w.nextId, call, InboxOf(later, p), later.nextId, encode);
      } else {
        StaysDated(w.inboxes[p], p, w.nextId, later.nextId);
      }
    }
  }

  lemma StaysDated(inbox: Inbox, player: nat, next: nat, later: nat)
    requires Dated(inbox, player, next) && next <= later
    ensures Dated(inbox, player, later)
  {
    SameStaysByNumber(inbox.order, Blueprints, player, next, later);
    SameStaysByNumber(inbox.bookOrder, Books, player, next, later);
  }

  lemma {:induction false} RunDates(w: World, calls: seq<Call>, encode: Encoder)
    requires WorldWellFormed(w) && DatedWorld(w) && SoundRun(w, calls, encode)
    requires forall i | 0 <= i < |calls| :: OrderlyCall(calls[i])
    ensures DatedWorld(Run(w, calls))
    decreases calls
  {
    if calls != [] {
      NextKeepsWellFormed(w, calls[0], encode);
      NextDates(w, calls[0], encode);
      RunDates(Next(w, calls[0]), calls[1..], encode);
    }
  }

  /** From an empty world, in every run: every inbox lists its blueprints, and its books, in
      ascending number, hence in the order they were handed out. */
  lemma ListsAreChronological(w: World, calls: seq<Call>, encode: Encoder, player: nat)
    requires w.inboxes == map[] && SoundRun(w, calls, encode) && forall i | 0 <= i < |calls| :: OrderlyCall(calls[i])
    ensures ByNumber(InboxOf(Run(w, calls), player).order, Blueprints, player, Run(w, calls).nextId)
    ensures ByNumber(InboxOf(Run(w, calls), player).bookOrder, Books, player, Run(w, calls).nextId)
  {
    RunDates(w, calls, encode);
    DatedAt(Run(w, calls), player);
  }

  lemma DatedAt(w: World, player: nat)
    requires DatedWorld(w)
    ensures Dated(InboxOf(w, player), player, w.nextId)
  {
    if player !in w.inboxes {
      assert EMPTY_INBOX.order == [] && EMPTY_INBOX.bookOrder == [];
    }
  }

  lemma FrontIsOlder(order: seq<string>, k: nat, player: nat, next: nat, m: nat, n: nat)
    requires ByNumber(order, Blueprints, player, next) && k <= |order|
    requires BlueprintId(player, m) in order[..k] && (BlueprintId(player, n) in order[k..] || n == next)
    ensures m < n
  {
    var id := BlueprintId(player, m);
    assert id in order;
    var a: nat :| a < next && id == Numbered(Blueprints, player, a);
    NumberedInjective(Blueprints, player, m, a);
    if n != next {
      SuffixOf(order, k);
      assert Before(order, Numbered(Blueprints, player, m), Numbered(Blueprints, player, n));
    }
  }

  /** So a save evicts what was saved first: every evicted number is below every number
      still listed, the new one included. */
  lemma EvictedWereSavedFirst(
      before: Inbox, number: nat, player: nat, canonical: Value, bytes: nat, now: Value, after: Inbox, next: nat, m: nat, n: nat)
    requires WellFormed(before) && ByNumber(before.order, Blueprints, player, number)
    requires bytes <= 524288 && canonical.Table? && Get(canonical, "name").Str?
    requires Stepped(before, number, Call(player, now, Request.Save(canonical, bytes, true)), after, next)
    requires BlueprintId(player, m) in before.order && BlueprintId(player, m) !in after.order && BlueprintId(player, n) in after.order
    ensures m < n
  {
    SaveOutcome(before, player, number, canonical, bytes, now, after, next);
    BookIdText(player, number);
    var k := |before.order| + 1 - |after.order|;
    GoneWasInFront(before.order, after.order, k, BlueprintId(player, number), BlueprintId(player, m), BlueprintId(player, n));
    if BlueprintId(player, n) == BlueprintId(player, number) {
      NumberedInjective(Blueprints, player, n, number);
    }
    FrontIsOlder(before.order, k, player, number, m, n);
  }

  lemma GoneWasInFront(order: seq<string>, after: seq<string>, k: nat, id: string, gone: string, kept: string)
    requires k <= |order| && after == order[k..] + [id] && gone in order && gone !in after && kept in after
    ensures gone in order[..k] && (kept in order[k..] || kept == id)
  {
    assert order == order[..k] + order[k..];
  }
}
