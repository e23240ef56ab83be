/** The library as the mod runs it: one table per player, rebuilt by the first call that
    finds it outdated, and one counter. */
module LibraryRoot {
  import opened LuaValues
  import opened Layouts
  import opened Inboxes
  import opened Books
  import opened Ids
  import opened Migration
  import opened Library
  import opened Outcomes
  import opened InboxStore

  const MAX_ENTITIES := 400

  datatype SaveReceipt = SaveReceipt(id: string, inboxCount: int, evicted: seq<string>)

  /** What `Blueprints.validate` guarantees of a layout it accepts, as far as saving
      relies on it. */
  ghost predicate Validated(layout: Value, encode: Encoder) {
    && Readable(layout)
    && ValidString(Get(layout, "name"), 100)
    && 1 <= Get(layout, "entities").border <= MAX_ENTITIES
    && forall canonical | LayoutOf(layout, canonical) :: encode(canonical).Some?
  }

  /** The canonical form of a validated layout carries its legal name. */
  lemma ValidatedName(layout: Value, encode: Encoder, canonical: Value)
    requires Validated(layout, encode) && LayoutOf(layout, canonical)
    ensures canonical.Table? && ValidString(Get(canonical, "name"), 100)
  {
  }

  /** What the root holds for one player. */
  datatype PlayerTable = Missing | Current(inbox: Inbox) | Legacy(stored: Value)

  /** What `player_inbox` hands out: a new inbox, the current one, or the rebuilt one. */
  ghost predicate OpensTo(t: PlayerTable, encode: Encoder, found: Inbox) {
    match t
    case Missing => found == EMPTY_INBOX
    case Current(inbox) => found == inbox
    case Legacy(stored) => exists candidates :: MigratedTo(stored, encode, candidates, found)
  }

  /** A current table is well formed; a legacy one is due for a rebuild; neither names an
      identifier still to come. */
  ghost predicate TableKept(t: PlayerTable, player: nat, next: nat) {
    match t
    case Missing => true
    case Current(inbox) => Kept(inbox, player, next)
    case Legacy(stored) => Outdated(stored) && Past(stored, player, next)
  }

  lemma TableStaysKept(t: PlayerTable, player: nat, next: nat, later: nat)
    requires TableKept(t, player, next) && next <= later
    ensures TableKept(t, player, later)
  {
    if t.Legacy? {
      PastStays(t.stored, player, next, later);
    }
  }

  /** Whatever a kept table opens to is kept: for a legacy one this is the migration's
      own guarantee. */
  lemma OpenedIsKept(t: PlayerTable, encode: Encoder, found: Inbox, player: nat, next: nat)
    requires TableKept(t, player, next) && OpensTo(t, encode, found)
    ensures Kept(found, player, next)
  {
    if t.Legacy? {
      var candidates :| MigratedTo(t.stored, encode, candidates, found);
      MigrationIsKept(t.stored, encode, candidates, found, player, next);
    }
  }

  /** What one call does to its player's table and to the counter: nothing when it is
      refused outright, else one step of the inbox it opens. */
  ghost predicate Carried(
      before: PlayerTable, number: nat, call: Call, encode: Encoder, found: Inbox, after: PlayerTable, next: nat)
  {
    if Refused(call.request) then after == before && next == number
    else OpensTo(before, encode, found) && after.Current? && Stepped(found, number, call, after.inbox, next)
  }

  lemma CarriedKeeps(
      before: PlayerTable, number: nat, call: Call, encode: Encoder, found: Inbox, after: PlayerTable, next: nat)
    requires Carried(before, number, call, encode, found, after, next) && TableKept(before, call.player, number)
    requires Sound(World(map[], number), call, encode)
    ensures TableKept(after, call.player, next)
  {
    if !Refused(call.request) {
      OpenedIsKept(before, encode, found, call.player, number);
      StepKeeps(found, number, call, after.inbox, next, encode);
    }
  }

  // ----------------------------------------------------------------------------- the answers

  function SaveAnswer(found: Inbox, player: nat, number: nat, bytes: nat, failure: Option<string>): Result<SaveReceipt> {
    if bytes > MAX_BLUEPRINT_BYTES_PER_PLAYER then Err("BLUEPRINT_TOO_LARGE")
    else if failure.Some? then Err(failure.value)
    else
      var evicted := found.order[..EvictionCount(found, bytes)];
      Ok(SaveReceipt(BlueprintId(player, number), |found.order| - |evicted| + 1, evicted))
  }

  function DeleteAnswer(found: Inbox, id: Value): Result<DeleteReceipt> {
    if !id.Str? then Err("INVALID_BLUEPRINT_ID")
    else if id.text !in found.byId then Err("BLUEPRINT_NOT_FOUND")
    else Ok(DeleteReceipt(id.text, found.byId[id.text].name, |found.order| - 1))
  }

  function CreateAnswer(
      found: Inbox, player: nat, number: nat, name: Value, ids: Value, description: Value, now: Value): Result<Book>
  {
    if !ValidString(name, 100) then Err("INVALID_BOOK_NAME")
    else if DescriptionRefused(description) then Err("INVALID_BOOK_DESCRIPTION")
    else
      var members := CollectMembers(ids, found.byId.Keys, {});
      if members.Err? then Err(members.code)
      else if |found.bookOrder| >= MAX_BOOKS_PER_PLAYER then Err("BLUEPRINT_BOOK_LIMIT_REACHED")
      else Ok(Book(BookId(player, number), name.text, DescriptionOf(description), members.value, now, now))
  }

  function UpdateAnswer(found: Inbox, payload: Value, now: Value): Result<Book> {
    if !payload.Table? then Err("INVALID_REQUEST")
    else if !Get(payload, "bookId").Str? then Err("INVALID_BOOK_ID")
    else if Get(payload, "bookId").text !in found.books then Err("BLUEPRINT_BOOK_NOT_FOUND")
    else Edited(found.books[Get(payload, "bookId").text], payload, found.byId.Keys, now)
  }

  function DeleteBookAnswer(found: Inbox, id: Value): Result<Book> {
    if !id.Str? then Err("INVALID_BOOK_ID")
    else if id.text !in found.books then Err("BLUEPRINT_BOOK_NOT_FOUND")
    else Ok(found.books[id.text])
  }

  // --------------------------------------------------------------------- what an Ok promises

  /** What the receipt of a save says, and what the table then holds: the evicted records
      were the first of the order, the others are listed as before, and behind them stands
      the receipt's identifier with the layout that was saved. */
  ghost predicate SaveDone(
      found: Inbox, receipt: SaveReceipt, player: nat, number: nat, canonical: Value, bytes: nat, now: Value, table: PlayerTable)
  {
    && table.Current?
    && receipt.id == SavedId(player, number)
    && |receipt.evicted| <= |found.order| && receipt.evicted == found.order[..|receipt.evicted|]
    && receipt.inboxCount == |table.inbox.order|
    && Appended(found, |receipt.evicted|, receipt.id, canonical, bytes, now, table.inbox)
    && LeastRoom(found, |receipt.evicted|, bytes)
  }

  lemma SaveMeans(
      found: Inbox, player: nat, number: nat, canonical: Value, bytes: nat, failure: Option<string>, now: Value, after: Inbox, next: nat)
    requires WellFormed(found) && canonical.Table? && Get(canonical, "name").Str?
    requires Stepped(found, number, Call(player, now, Request.Save(canonical, bytes, failure.None?)), after, next)
    requires SaveAnswer(found, player, number, bytes, failure).Ok?
    ensures SaveDone(found, SaveAnswer(found, player, number, bytes, failure).value, player, number, canonical, bytes, now, Current(after))
  {
    SaveOutcome(found, player, number, canonical, bytes, now, after, next);
    BookIdText(player, number);
  }

  /** When a save is answered with a receipt, and with which error otherwise. */
  lemma SaveAnswersWhen(found: Inbox, player: nat, number: nat, bytes: nat, failure: Option<string>)
    ensures var r := SaveAnswer(found, player, number, bytes, failure);
            && (r.Ok? <==> bytes <= 524288 && failure == None)
            && (bytes > 524288 ==> r == Err("BLUEPRINT_TOO_LARGE"))
            && (bytes <= 524288 && failure.Some? ==> r == Err(failure.value))
  {
  }

  /** The receipt of a deletion counts what is left; a miss is the only other answer. */
  lemma DeleteMeans(found: Inbox, id: Value, now: Value, player: nat, number: nat, after: Inbox, next: nat)
    requires WellFormed(found) && id.Str? && Stepped(found, number, Call(player, now, Request.Delete(id)), after, next)
    ensures DeleteAnswer(found, id)
            == if id.text in found.byId then Ok(DeleteReceipt(id.text, found.byId[id.text].name, |after.order|)) else Err("BLUEPRINT_NOT_FOUND")
  {
    WithoutOne(found.order, id.text);
  }

  /** A created book is answered as it was stored. */
  lemma CreateMeans(
      found: Inbox, name: Value, ids: Value, text: Value, now: Value, player: nat, number: nat, after: Inbox, next: nat)
    requires Stepped(found, number, Call(player, now, Request.CreateBook(name, ids, text)), after, next)
    ensures var r := CreateAnswer(found, player, number, name, ids, text, now);
            && (r.Ok? <==> CreateAccepted(found, name, ids, text))
            && (r.Ok? ==> r.value.id in after.books && after.books[r.value.id] == r.value)
  {
    CreateBookOutcome(found, player, number, name, ids, text, now, after, next);
    GoodListCollects(ids, found.byId.Keys, {});
    BookIdText(player, number);
  }

  /** With which error a new book is refused: that of the first failing check. */
  lemma CreateRefusal(found: Inbox, name: Value, ids: Value, text: Value, now: Value, player: nat, number: nat)
    ensures var r := CreateAnswer(found, player, number, name, ids, text, now);
            if !TextOk(name, 1, 100) then r == Err("INVALID_BOOK_NAME")
            else if text != Nil && !TextOk(text, 0, 1000) then r == Err("INVALID_BOOK_DESCRIPTION")
            else if !GoodList(ids, found.byId.Keys, {}) then r.Err? && CollectMembers(ids, found.byId.Keys, {}) == Err(r.code)
            else if |found.bookOrder| >= 20 then r == Err("BLUEPRINT_BOOK_LIMIT_REACHED")
            else r.Ok?
  {
    GoodListCollects(ids, found.byId.Keys, {});
  }

  /** An edited book is answered as it was stored. */
  lemma UpdateMeans(found: Inbox, payload: Value, now: Value, player: nat, number: nat, after: Inbox, next: nat)
    requires payload.Table? && Get(payload, "bookId").Str?
    requires Stepped(found, number, Call(player, now, Request.UpdateBook(payload)), after, next)
    ensures var id, r := Get(payload, "bookId").text, UpdateAnswer(found, payload, now);
            if r.Ok? then id in found.books && id in after.books && after.books[id] == r.value else after == found
  {
    UpdateBookOutcome(found, payload, now, player, number, after, next);
  }

  // ---------------------------------------------------------------------------- the root

  /** The mod's stored root: the table of each player, current or not, and the counter. */
  class AiRoot {
    var blueprintInbox: map<nat, PlayerInbox>
    var legacy: map<nat, Value>
    var nextBlueprintId: nat
    const encode: Encoder

    /** A root as a save holds it when the mod is loaded: any outdated tables, all from
        the past. */
    constructor (tables: map<nat, Value>, next: nat, encode: Encoder)
      requires forall p | p in tables :: Outdated(tables[p]) && Past(tables[p], p, next)
      ensures Valid() && nextBlueprintId == next && this.encode == encode
      ensures forall p: nat :: Table(p) == if p in tables then Legacy(tables[p]) else Missing
    {
      blueprintInbox, legacy, nextBlueprintId, this.encode := map[], tables, next, encode;
    }

    ghost function Objects(): set<PlayerInbox>
      reads this
    {
      set p | p in blueprintInbox :: blueprintInbox[p]
    }

    /** The objects a call by `player` may change besides the root itself. */
    ghost function Own(player: nat): set<object>
      reads this
    {
      if player in blueprintInbox then {blueprintInbox[player]} else {}
    }

    ghost function Table(player: nat): PlayerTable
      reads this, Own(player)
    {
      if player in blueprintInbox then Current(blueprintInbox[player].View())
      else if player in legacy then Legacy(legacy[player])
      else Missing
    }

    /** No two players share a table, and none has two. */
    ghost predicate Separate()
      reads this
    {
      && blueprintInbox.Keys !! legacy.Keys
      && (forall p, q | p in blueprintInbox && q in blueprintInbox && p != q :: blueprintInbox[p] != blueprintInbox[q])
    }

    ghost predicate Valid()
      reads this, Objects()
    {
      Separate() && forall p: nat :: TableKept(Table(p), p, nextBlueprintId)
    }

    /** No other player's table is touched. */
    twostate predicate OthersKept(player: nat)
      reads this, Objects()
    {
      Separate() && forall q: nat | q != player :: Table(q) == old(Table(q))
    }

    /** Every player keeps its inbox object; only new ones are added. */
    twostate predicate ObjectsKept()
      reads this
    {
      && old(blueprintInbox).Keys <= blueprintInbox.Keys
      && forall q | q in blueprintInbox ::
           if q in old(blueprintInbox) then blueprintInbox[q] == old(blueprintInbox)[q] else fresh(blueprintInbox[q])
    }

    /** The call did to its player's table what it should, and nothing to any other. */
    twostate predicate Served(call: Call)
      reads this, Objects()
    {
      && OthersKept(call.player)
      && exists found ::
           Carried(old(Table(call.player)), old(nextBlueprintId), call, encode, found, Table(call.player), nextBlueprintId)
    }

    /** Such a call keeps the whole root valid. */
    twostate lemma CallKeepsValid(call: Call)
      requires old(Valid()) && Served(call) && Sound(World(map[], old(nextBlueprintId)), call, encode)
      ensures Valid() && old(nextBlueprintId) <= nextBlueprintId
    {
      var found :| Carried(old(Table(call.player)), old(nextBlueprintId), call, encode, found, Table(call.player), nextBlueprintId);
      forall p: nat ensures TableKept(Table(p), p, nextBlueprintId) {
        assert TableKept(old(Table(p)), p, old(nextBlueprintId));
        if p == call.player {
          CarriedKeeps(old(Table(p)), old(nextBlueprintId), call, encode, found, Table(p), nextBlueprintId);
        } else {
          TableStaysKept(old(Table(p)), p, old(nextBlueprintId), nextBlueprintId);
        }
      }
    }

    /** A call that only changes its player's own inbox object touches no other table. */
    twostate lemma OwnInboxOnly(player: nat)
      requires old(Separate()) && player in blueprintInbox
      requires blueprintInbox == old(blueprintInbox) && legacy == old(legacy)
      requires forall o | o in Objects() && o != blueprintInbox[player] :: o.View() == old(o.View())
      ensures OthersKept(player)
    {
    }

    /** A new inbox object takes its player's place. */
    method Install(player: nat, inbox: PlayerInbox)
      requires Separate() && player !in blueprintInbox && inbox !in Objects()
      modifies this`blueprintInbox, this`legacy
      ensures OthersKept(player)
      ensures blueprintInbox == old(blueprintInbox)[player := inbox]
    {
      legacy := legacy - {player};
      blueprintInbox := blueprintInbox[player := inbox];
    }

    /** `player_inbox`: a missing inbox is created, an outdated table rebuilt. */
    method OpenInbox(player: nat) returns (inbox: PlayerInbox)
      requires Separate() && TableKept(Table(player), player, nextBlueprintId)
      modifies this`blueprintInbox, this`legacy
      ensures OthersKept(player) && ObjectsKept()
      ensures player in blueprintInbox && blueprintInbox[player] == inbox
      ensures OpensTo(old(Table(player)), encode, inbox.View())
      ensures if player in old(blueprintInbox) then inbox == old(blueprintInbox)[player] else fresh(inbox)
    {
      if player in blueprintInbox {
        inbox := blueprintInbox[player];
        return;
      }
      if player in legacy {
        inbox := Rebuild(legacy[player]);
      } else {
        inbox := new PlayerInbox(EMPTY_INBOX);
      }
      Install(player, inbox);
    }

    /** `migrate_inbox` on the table in place. */
    method Rebuild(stored: Value) returns (inbox: PlayerInbox)
      requires stored.Table?
      ensures fresh(inbox) && OpensTo(Legacy(stored), encode, inbox.View())
    {
      var rebuilt, candidates := MigrateInbox(stored, encode);
      inbox := new PlayerInbox(rebuilt);
    }

    /** `Blueprints.save`. The verdict of validation, the player's cursor preference and
        the error of a failed cursor delivery come from the engine. */
    method Save(player: nat, layout: Value, valid: bool, toCursor: bool, allowCursor: bool, failure: Option<string>, now: Value)
      returns (r: Result<SaveReceipt>, ghost canonical: Value, ghost found: Inbox)
      requires Separate() && TableKept(Table(player), player, nextBlueprintId)
      requires valid ==> Validated(layout, encode)
      modifies this, Own(player)
      ensures OthersKept(player) && ObjectsKept()
      ensures !valid || (toCursor && !allowCursor) ==>
                && r == Err(if !valid then "BLUEPRINT_INVALID" else "PLAYER_PREFERENCE_DENIED")
                && Table(player) == old(Table(player)) && nextBlueprintId == old(nextBlueprintId)
      ensures valid && (toCursor ==> allowCursor) ==>
                var failed := if toCursor then failure else None;
                && LayoutOf(layout, canonical) && encode(canonical).Some?
                && r == SaveAnswer(found, player, old(nextBlueprintId), encode(canonical).value, failed)
                && Carried(old(Table(player)), old(nextBlueprintId),
                           Call(player, now, Request.Save(canonical, encode(canonical).value, failed.None?)),
                           encode, found, Table(player), nextBlueprintId)
      ensures r.Ok? ==>
                && LayoutOf(layout, canonical) && encode(canonical).Some?
                && SaveDone(found, r.value, player, old(nextBlueprintId), canonical, encode(canonical).value, now, Table(player))
    {
      found := EMPTY_INBOX;
      canonical := Nil;
      if !valid {
        return Err("BLUEPRINT_INVALID"), canonical, found;
      }
      if toCursor && !allowCursor {
        return Err("PLAYER_PREFERENCE_DENIED"), canonical, found;
      }
      r, canonical, found := SaveValid(player, layout, if toCursor then failure else None, now);
    }

    /** `Blueprints.save` past its refusals. */
    method SaveValid(player: nat, layout: Value, failed: Option<string>, now: Value)
      returns (r: Result<SaveReceipt>, ghost canonical: Value, ghost found: Inbox)
      requires Separate() && TableKept(Table(player), player, nextBlueprintId) && Validated(layout, encode)
      modifies this, Own(player)
      ensures OthersKept(player) && ObjectsKept()
      ensures LayoutOf(layout, canonical) && encode(canonical).Some?
      ensures r == SaveAnswer(found, player, old(nextBlueprintId), encode(canonical).value, failed)
      ensures Carried(old(Table(player)), old(nextBlueprintId),
                      Call(player, now, Request.Save(canonical, encode(canonical).value, failed.None?)),
                      encode, found, Table(player), nextBlueprintId)
      ensures r.Ok? ==> SaveDone(found, r.value, player, old(nextBlueprintId), canonical, encode(canonical).value, now, Table(player))
    {
      var copied := CanonicalLayout(layout);
      canonical := copied.value;
      assert Table(player) == old(Table(player));
      assert forall q: nat | q != player :: Table(q) == old(Table(q));
      ValidatedName(layout, encode, canonical);
      r, found := Keep(player, copied.value, encode(copied.value).value, failed, now);
    }

    /** `Blueprints.save` once it has the canonical layout and its size. */
    method Keep(player: nat, canonical: Value, layoutBytes: nat, failure: Option<string>, now: Value)
      returns (r: Result<SaveReceipt>, ghost found: Inbox)
      requires Separate() && TableKept(Table(player), player, nextBlueprintId)
      modifies this, Own(player)
      ensures OthersKept(player) && ObjectsKept()
      ensures r == SaveAnswer(found, player, old(nextBlueprintId), layoutBytes, failure)
      ensures Carried(old(Table(player)), old(nextBlueprintId),
                      Call(player, now, Request.Save(canonical, layoutBytes, failure.None?)),
                      encode, found, Table(player), nextBlueprintId)
      ensures r.Ok? && canonical.Table? && Get(canonical, "name").Str? ==>
                SaveDone(found, r.value, player, old(nextBlueprintId), canonical, layoutBytes, now, Table(player))
    {
      if layoutBytes > MAX_BLUEPRINT_BYTES_PER_PLAYER {
        return Err("BLUEPRINT_TOO_LARGE"), EMPTY_INBOX;
      }
      var inbox := OpenInbox(player);
      found := inbox.View();
      OpenedIsKept(old(Table(player)), encode, found, player, nextBlueprintId);
      r := SaveIn(player, inbox, canonical, layoutBytes, failure, now);
      if r.Ok? && canonical.Table? && Get(canonical, "name").Str? {
        SaveMeans(found, player, old(nextBlueprintId), canonical, layoutBytes, failure, now, inbox.View(), nextBlueprintId);
      }
    }

    method SaveIn(player: nat, inbox: PlayerInbox, canonical: Value, layoutBytes: nat, failure: Option<string>, now: Value)
      returns (r: Result<SaveReceipt>)
      requires Separate() && player in blueprintInbox && blueprintInbox[player] == inbox
      requires WellFormed(inbox.View()) && layoutBytes <= MAX_BLUEPRINT_BYTES_PER_PLAYER
      modifies this`nextBlueprintId, inbox
      ensures OthersKept(player) && ObjectsKept()
      ensures r == SaveAnswer(old(inbox.View()), player, old(nextBlueprintId), layoutBytes, failure)
      ensures Stepped(old(inbox.View()), old(nextBlueprintId),
                      Call(player, now, Request.Save(canonical, layoutBytes, failure.None?)), inbox.View(), nextBlueprintId)
    {
      if failure.Some? {
        return Err(failure.value);
      }
      var id := BlueprintId(player, nextBlueprintId);
      var evicted := inbox.Store(NewRecord(id, canonical, layoutBytes, now), now);
      nextBlueprintId := nextBlueprintId + 1;
      r := Ok(SaveReceipt(id, |inbox.order|, evicted));
      OwnInboxOnly(player);
    }

    /** `Blueprints.delete`. */
    method Delete(player: nat, id: Value, now: Value) returns (r: Result<DeleteReceipt>, ghost found: Inbox)
      requires Separate() && TableKept(Table(player), player, nextBlueprintId)
      modifies this`blueprintInbox, this`legacy, Own(player)
      ensures OthersKept(player) && ObjectsKept()
      ensures r == DeleteAnswer(found, id)
      ensures Carried(old(Table(player)), old(nextBlueprintId), Call(player, now, Request.Delete(id)),
                      encode, found, Table(player), nextBlueprintId)
    {
      if !id.Str? {
        return Err("INVALID_BLUEPRINT_ID"), EMPTY_INBOX;
      }
      var inbox := OpenInbox(player);
      found := inbox.View();
      OpenedIsKept(old(Table(player)), encode, found, player, nextBlueprintId);
      r := DeleteIn(player, inbox, id.text, now);
    }

    method DeleteIn(player: nat, inbox: PlayerInbox, id: string, now: Value) returns (r: Result<DeleteReceipt>)
      requires Separate() && player in blueprintInbox && blueprintInbox[player] == inbox
      requires WellFormed(inbox.View())
      modifies inbox
      ensures OthersKept(player) && ObjectsKept()
      ensures r == DeleteAnswer(old(inbox.View()), Str(id))
      ensures Stepped(old(inbox.View()), nextBlueprintId, Call(player, now, Request.Delete(Str(id))), inbox.View(), nextBlueprintId)
    {
      WithoutOne(inbox.order, id);
      r := inbox.Delete(id, now);
      OwnInboxOnly(player);
    }

    /** `Blueprints.create_book`: refused, never evicting. */
    method CreateBook(player: nat, name: Value, ids: Value, description: Value, now: Value)
      returns (r: Result<Book>, ghost found: Inbox)
      requires Separate() && TableKept(Table(player), player, nextBlueprintId)
      modifies this, Own(player)
      ensures OthersKept(player) && ObjectsKept()
      ensures r == CreateAnswer(found, player, old(nextBlueprintId), name, ids, description, now)
      ensures Carried(old(Table(player)), old(nextBlueprintId), Call(player, now, Request.CreateBook(name, ids, description)),
                      encode, found, Table(player), nextBlueprintId)
    {
      found := EMPTY_INBOX;
      if !ValidString(name, 100) {
        return Err("INVALID_BOOK_NAME"), found;
      }
      if DescriptionRefused(description) {
        return Err("INVALID_BOOK_DESCRIPTION"), found;
      }
      r, found := CreateNamed(player, name, ids, description, now);
    }

    /** `Blueprints.create_book` past its checks of the texts. */
    method CreateNamed(player: nat, name: Value, ids: Value, description: Value, now: Value)
      returns (r: Result<Book>, ghost found: Inbox)
      requires Separate() && TableKept(Table(player), player, nextBlueprintId)
      requires ValidString(name, 100) && !DescriptionRefused(description)
      modifies this, Own(player)
      ensures OthersKept(player) && ObjectsKept()
      ensures r == CreateAnswer(found, player, old(nextBlueprintId), name, ids, description, now)
      ensures Carried(old(Table(player)), old(nextBlueprintId), Call(player, now, Request.CreateBook(name, ids, description)),
                      encode, found, Table(player), nextBlueprintId)
    {
      var inbox := OpenInbox(player);
      found := inbox.View();
      r := CreateBookIn(player, inbox, name, ids, description, now);
    }

    method CreateBookIn(player: nat, inbox: PlayerInbox, name: Value, ids: Value, description: Value, now: Value)
      returns (r: Result<Book>)
      requires Separate() && player in blueprintInbox && blueprintInbox[player] == inbox
      requires ValidString(name, 100) && !DescriptionRefused(description)
      modifies this`nextBlueprintId, inbox
      ensures OthersKept(player) && ObjectsKept()
      ensures r == CreateAnswer(old(inbox.View()), player, old(nextBlueprintId), name, ids, description, now)
      ensures Stepped(old(inbox.View()), old(nextBlueprintId), Call(player, now, Request.CreateBook(name, ids, description)),
                      inbox.View(), nextBlueprintId)
    {
      var members := Collect(ids, inbox.byId.Keys, {});
      if members.Err? {
        return Err(members.code);
      }
      if |inbox.bookOrder| >= MAX_BOOKS_PER_PLAYER {
        return Err("BLUEPRINT_BOOK_LIMIT_REACHED");
      }
      var book := Book(BookId(player, nextBlueprintId), name.text, DescriptionOf(description), members.value, now, now);
      nextBlueprintId := nextBlueprintId + 1;
      inbox.Shelve(book);
      r := Ok(book);
      OwnInboxOnly(player);
    }

    /** `Blueprints.update_book`. */
    method UpdateBook(player: nat, payload: Value, now: Value) returns (r: Result<Book>, ghost found: Inbox)
      requires Separate() && TableKept(Table(player), player, nextBlueprintId)
      modifies this`blueprintInbox, this`legacy, Own(player)
      ensures OthersKept(player) && ObjectsKept()
      ensures r == UpdateAnswer(found, payload, now)
      ensures Carried(old(Table(player)), old(nextBlueprintId), Call(player, now, Request.UpdateBook(payload)),
                      encode, found, Table(player), nextBlueprintId)
    {
      found := EMPTY_INBOX;
      if !payload.Table? {
        return Err("INVALID_REQUEST"), found;
      }
      if !Get(payload, "bookId").Str? {
        return Err("INVALID_BOOK_ID"), found;
      }
      var inbox := OpenInbox(player);
      found := inbox.View();
      r := UpdateBookIn(player, inbox, payload, now);
    }

    method UpdateBookIn(player: nat, inbox: PlayerInbox, payload: Value, now: Value) returns (r: Result<Book>)
      requires Separate() && player in blueprintInbox && blueprintInbox[player] == inbox
      requires payload.Table? && Get(payload, "bookId").Str?
      modifies inbox
      ensures OthersKept(player) && ObjectsKept()
      ensures r == UpdateAnswer(old(inbox.View()), payload, now)
      ensures Stepped(old(inbox.View()), nextBlueprintId, Call(player, now, Request.UpdateBook(payload)), inbox.View(), nextBlueprintId)
    {
      r := inbox.UpdateBook(payload, now);
      OwnInboxOnly(player);
    }

    /** `Blueprints.delete_book`. */
    method DeleteBook(player: nat, id: Value, now: Value) returns (r: Result<Book>, ghost found: Inbox)
      requires Separate() && TableKept(Table(player), player, nextBlueprintId)
      modifies this`blueprintInbox, this`legacy, Own(player)
      ensures OthersKept(player) && ObjectsKept()
      ensures r == DeleteBookAnswer(found, id)
      ensures Carried(old(Table(player)), old(nextBlueprintId), Call(player, now, Request.DeleteBook(id)),
                      encode, found, Table(player), nextBlueprintId)
    {
      if !id.Str? {
        return Err("INVALID_BOOK_ID"), EMPTY_INBOX;
      }
      var inbox := OpenInbox(player);
      found := inbox.View();
      r := DeleteBookIn(player, inbox, id.text, now);
    }

    method DeleteBookIn(player: nat, inbox: PlayerInbox, id: string, now: Value) returns (r: Result<Book>)
      requires Separate() && player in blueprintInbox && blueprintInbox[player] == inbox
      modifies inbox
      ensures OthersKept(player) && ObjectsKept()
      ensures r == DeleteBookAnswer(old(inbox.View()), Str(id))
      ensures Stepped(old(inbox.View()), nextBlueprintId, Call(player, now, Request.DeleteBook(Str(id))), inbox.View(), nextBlueprintId)
    {
      r := inbox.DeleteBook(id);
      OwnInboxOnly(player);
    }
  }
}
