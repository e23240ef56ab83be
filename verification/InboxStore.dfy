/** One player's inbox as the mod keeps it: tables edited in place. Every operation is
    tied to the value it must produce. */
module InboxStore {
  import opened LuaValues
  import opened Inboxes
  import opened Books
  import opened Library

  datatype DeleteReceipt = DeleteReceipt(id: string, name: string, remaining: int)

  /** The downward loop with `table.remove` used wherever entries leave a list. */
  method Pruned(list: seq<string>, gone: set<string>) returns (kept: seq<string>, touched: bool)
    ensures kept == Without(list, gone)
    ensures touched <==> exists x :: x in list && x in gone
  {
    kept, touched := list, false;
    var index := |list|;
    while index > 0
      invariant 0 <= index <= |list|
      invariant kept == list[..index] + Without(list[index..], gone)
      invariant touched <==> exists x :: x in list[index..] && x in gone
    {
      index := index - 1;
      assert list[index..] == [list[index]] + list[index + 1..];
      assert kept[index] == list[index];
      if kept[index] in gone {
        kept, touched := kept[..index] + kept[index + 1..], true;
      }
    }
  }

  class PlayerInbox {
    var order: seq<string>
    var byId: map<string, Record>
    var bytes: int
    var books: map<string, Book>
    var bookOrder: seq<string>

    ghost function View(): Inbox
      reads this
    {
      Inbox(order, byId, bytes, books, bookOrder)
    }

    constructor (inbox: Inbox)
      ensures View() == inbox
    {
      order, byId, bytes, books, bookOrder := inbox.order, inbox.byId, inbox.bytes, inbox.books, inbox.bookOrder;
    }

    /** `forget_member`. */
    method ForgetMember(id: string, now: Value)
      requires Lists(bookOrder, books)
      modifies this`books
      ensures books == ForgetAll(old(books), {id}, now)
    {
      for i := 0 to |bookOrder|
        invariant books.Keys == old(books.Keys)
        invariant forall j | 0 <= j < i :: books[bookOrder[j]] == Forget(old(books)[bookOrder[j]], {id}, now)
        invariant forall j | i <= j < |bookOrder| :: books[bookOrder[j]] == old(books)[bookOrder[j]]
      {
        var book := books[bookOrder[i]];
        var members, touched := Pruned(book.members, {id});
        if touched {
          books := books[bookOrder[i] := book.(members := members, updatedTick := now)];
        }
      }
      forall b | b in books ensures books[b] == Forget(old(books)[b], {id}, now) {
        assert b in bookOrder;
        var j :| 0 <= j < |bookOrder| && bookOrder[j] == b;
      }
    }

    /** One round of the eviction loop. */
    method EvictOldest(now: Value) returns (id: string)
      requires WellFormed(View()) && order != []
      modifies this
      ensures View() == DropOldest(old(View()), 1, now) && id == old(order)[0]
    {
      OldestPart(View());
      id := order[0];
      order := order[1..];
      if id in byId {
        bytes := if bytes - byId[id].bytes < 0 then 0 else bytes - byId[id].bytes;
        byId := byId - {id};
      }
      ForgetMember(id, now);
    }

    /** `evict_oldest_until_fit`. */
    method EvictOldestUntilFit(extra: nat, now: Value) returns (evicted: seq<string>)
      requires WellFormed(View())
      modifies this
      ensures View() == DropOldest(old(View()), EvictionCount(old(View()), extra), now)
      ensures evicted == old(order)[..EvictionCount(old(View()), extra)]
    {
      evicted := [];
      ghost var before := View();
      DropNothing(before, now);
      while |order| > 0
            && (|order| >= MAX_BLUEPRINTS_PER_PLAYER || bytes + extra > MAX_BLUEPRINT_BYTES_PER_PLAYER)
        invariant |evicted| <= |before.order| && evicted == before.order[..|evicted|]
        invariant View() == DropOldest(before, |evicted|, now)
        invariant NoneFits(before, |evicted|, extra)
        decreases |order|
      {
        var id := EvictOneMore(before, |evicted|, extra, now);
        evicted := evicted + [id];
      }
      LeastFit(before, extra, |evicted|);
    }

    /** The round that evicts the record after the first `k`. */
    method EvictOneMore(ghost before: Inbox, ghost k: nat, extra: nat, now: Value) returns (id: string)
      requires WellFormed(before) && k < |before.order| && View() == DropOldest(before, k, now) && NoneFits(before, k, extra)
      requires |order| >= MAX_BLUEPRINTS_PER_PLAYER || bytes + extra > MAX_BLUEPRINT_BYTES_PER_PLAYER
      modifies this
      ensures View() == DropOldest(before, k + 1, now) && NoneFits(before, k + 1, extra)
      ensures before.order[..k] + [id] == before.order[..k + 1]
    {
      AnotherRound(before, k, extra, now);
      id := EvictOldest(now);
    }

    /** `save` past its guards: make room, then append. */
    method Store(record: Record, now: Value) returns (evicted: seq<string>)
      requires WellFormed(View())
      modifies this
      ensures View() == Saved(old(View()), record, now)
      ensures evicted == old(order)[..EvictionCount(old(View()), record.bytes)]
    {
      evicted := EvictOldestUntilFit(record.bytes, now);
      Append(record);
    }

    method Append(record: Record)
      modifies this`byId, this`order, this`bytes
      ensures View() == Stored(old(View()), record)
    {
      byId := byId[record.id := record];
      order := order + [record.id];
      bytes := bytes + record.bytes;
    }

    /** `create_book` past its guards. */
    method Shelve(book: Book)
      modifies this`books, this`bookOrder
      ensures View() == BookCreated(old(View()), book)
    {
      books := books[book.id := book];
      bookOrder := bookOrder + [book.id];
    }

    /** `Blueprints.delete` on this inbox. */
    method Delete(id: string, now: Value) returns (r: Result<DeleteReceipt>)
      requires WellFormed(View())
      modifies this
      ensures r.Err? <==> id !in old(byId)
      ensures r.Err? ==> View() == old(View()) && r.code == "BLUEPRINT_NOT_FOUND"
      ensures r.Ok? ==> View() == Deleted(old(View()), id, now)
                        && r.value == DeleteReceipt(id, old(byId)[id].name, |order|)
    {
      if id !in byId {
        return Err("BLUEPRINT_NOT_FOUND");
      }
      var record := byId[id];
      RecordFitsTotal(View(), id);
      TakeOut(id, now);
      r := Ok(DeleteReceipt(id, record.name, |order|));
    }

    /** `delete` once the record is found. */
    method TakeOut(id: string, now: Value)
      requires Lists(bookOrder, books) && id in byId && byId[id].bytes <= bytes
      modifies this
      ensures View() == Deleted(old(View()), id, now)
    {
      var record := byId[id];
      byId := byId - {id};
      var touched;
      order, touched := Pruned(order, {id});
      bytes := if bytes - record.bytes < 0 then 0 else bytes - record.bytes;
      ForgetMember(id, now);
    }

    /** `delete_book` on this inbox. */
    method DeleteBook(id: string) returns (r: Result<Book>)
      modifies this`books, this`bookOrder
      ensures r.Err? <==> id !in old(books)
      ensures r.Err? ==> View() == old(View()) && r.code == "BLUEPRINT_BOOK_NOT_FOUND"
      ensures r.Ok? ==> View() == BookDeleted(old(View()), id) && r.value == old(books)[id]
    {
      if id !in books {
        return Err("BLUEPRINT_BOOK_NOT_FOUND");
      }
      r := Ok(books[id]);
      books := books - {id};
      var touched;
      bookOrder, touched := Pruned(bookOrder, {id});
    }

    /** `update_book` on this inbox: all or nothing. */
    method UpdateBook(payload: Value, now: Value) returns (r: Result<Book>)
      requires payload.Table? && Get(payload, "bookId").Str?
      modifies this`books
      ensures View() == BookUpdated(old(View()), Get(payload, "bookId").text, payload, now)
      ensures r == if Get(payload, "bookId").text !in old(books) then Err("BLUEPRINT_BOOK_NOT_FOUND")
                   else Edited(old(books)[Get(payload, "bookId").text], payload, byId.Keys, now)
      ensures r.Err? ==> View() == old(View())
    {
      var id := Get(payload, "bookId").text;
      if id !in books {
        return Err("BLUEPRINT_BOOK_NOT_FOUND");
      }
      var book := books[id];
      var operation := Get(payload, "operation");
      if operation == Str("rename") {
        r := Renamed(book, payload);
      } else if operation == Str("add") {
        r := AddMembers(book, payload, byId.Keys);
      } else if operation == Str("remove") {
        r := RemoveMembers(book, payload);
      } else if operation == Str("reorder") {
        r := ReorderMembers(book, payload);
      } else {
        r := Err("INVALID_BOOK_OPERATION");
      }
      if r.Ok? {
        r := Ok(r.value.(updatedTick := now));
        books := books[id := r.value];
      }
    }
  }

  lemma OldestPart(inbox: Inbox)
    requires WellFormed(inbox) && inbox.order != []
    ensures inbox.order[0] in inbox.byId
    ensures Total(inbox.order[..1], inbox.byId) == inbox.byId[inbox.order[0]].bytes <= inbox.bytes
    ensures Elements(inbox.order[..1]) == {inbox.order[0]}
  {
    assert inbox.order[..1] == [inbox.order[0]];
    assert inbox.order[0] in inbox.order;
  }

  /** Every prefix shorter than `k` leaves too little room. */
  ghost predicate NoneFits(inbox: Inbox, k: nat, extra: nat) {
    forall j | 0 <= j < k :: !Fits(inbox, j, extra)
  }

  lemma AnotherRound(before: Inbox, k: nat, extra: nat, now: Value)
    requires WellFormed(before) && k < |before.order|
    requires var cut := DropOldest(before, k, now);
             |cut.order| >= MAX_BLUEPRINTS_PER_PLAYER || cut.bytes + extra > MAX_BLUEPRINT_BYTES_PER_PLAYER
    requires NoneFits(before, k, extra)
    ensures WellFormed(DropOldest(before, k, now))
    ensures DropOldest(DropOldest(before, k, now), 1, now) == DropOldest(before, k + 1, now)
    ensures before.order[..k] + [DropOldest(before, k, now).order[0]] == before.order[..k + 1]
    ensures NoneFits(before, k + 1, extra)
  {
    StillNoneFits(before, k, extra, now);
    DropKeepsWellFormed(before, k, now);
    DropOneMore(before, k, now);
    OldestOfCut(before, k, now);
  }

  lemma OldestOfCut(before: Inbox, k: nat, now: Value)
    requires k < |before.order|
    ensures before.order[..k] + [DropOldest(before, k, now).order[0]] == before.order[..k + 1]
  {
  }

  lemma StillNoneFits(before: Inbox, k: nat, extra: nat, now: Value)
    requires k < |before.order| && NoneFits(before, k, extra)
    requires var cut := DropOldest(before, k, now);
             |cut.order| >= MAX_BLUEPRINTS_PER_PLAYER || cut.bytes + extra > MAX_BLUEPRINT_BYTES_PER_PLAYER
    ensures NoneFits(before, k + 1, extra)
  {
    assert !Fits(before, k, extra);
  }

  lemma LeastFit(inbox: Inbox, extra: nat, k: nat)
    requires Fits(inbox, k, extra) && NoneFits(inbox, k, extra)
    ensures EvictionCount(inbox, extra) == k
  {
  }

  /** The shared shape of the loops over `blueprintIds`. */
  method ScanIds(list: seq<Value>, rules: Rules, known: set<string>, taken: set<string>)
    returns (r: Result<seq<string>>)
    ensures r == Scan(list, rules, known, taken)
  {
    var ids: seq<string> := [];
    var index := 0;
    while index < |list|
      invariant 0 <= index <= |list|
      invariant Scan(list[..index], rules, known, taken) == Ok(ids)
    {
      assert list[..index + 1][..index] == list[..index];
      var failure := None;
      if rules.limit.Some? && |ids| >= rules.limit.value {
        failure := Some("INVALID_BOOK_MEMBERS");
      } else if !list[index].Str? {
        failure := Some(rules.notString);
      } else if list[index].text in ids || list[index].text in taken {
        failure := Some(rules.duplicate);
      } else if list[index].text !in known {
        failure := Some(rules.unknown);
      }
      if failure.Some? {
        FirstFailureStands(list, index + 1, rules, known, taken);
        return Err(failure.value);
      }
      ids := ids + [list[index].text];
      index := index + 1;
    }
    assert list[..index] == list;
    r := Ok(ids);
  }

  lemma {:induction false} FirstFailureStands(list: seq<Value>, k: nat, rules: Rules, known: set<string>, taken: set<string>)
    requires k <= |list| && Scan(list[..k], rules, known, taken).Err?
    ensures Scan(list, rules, known, taken) == Scan(list[..k], rules, known, taken)
  {
    if k < |list| {
      var init := list[..|list| - 1];
      assert init[..k] == list[..k];
      FirstFailureStands(init, k, rules, known, taken);
    } else {
      assert list[..k] == list;
    }
  }

  method Collect(ids: Value, known: set<string>, taken: set<string>) returns (r: Result<seq<string>>)
    ensures r == CollectMembers(ids, known, taken)
  {
    if !ids.Table? {
      return Err("INVALID_BOOK_MEMBERS");
    }
    r := ScanIds(ids.list, MEMBER_RULES, known, taken);
    if r.Ok? && |r.value| < 1 {
      r := Err("INVALID_BOOK_MEMBERS");
    }
  }

  /** The `add` edit: one shifting insert per addition. */
  method AddMembers(book: Book, payload: Value, stored: set<string>) returns (r: Result<Book>)
    requires payload.Table?
    ensures r == Added(book, payload, stored)
  {
    var additions := Collect(Get(payload, "blueprintIds"), stored, Elements(book.members));
    if additions.Err? {
      return Err(additions.code);
    }
    if |book.members| + |additions.value| > MAX_BOOK_MEMBERS {
      return Err("BOOK_MEMBER_LIMIT_REACHED");
    }
    var position := |book.members| + 1;
    if Get(payload, "position") != Nil {
      if !IntegerIn(Get(payload, "position"), 1, |book.members| + 1) {
        return Err("INVALID_BOOK_POSITION");
      }
      position := Get(payload, "position").number.Floor;
    }
    var members := book.members;
    for offset := 0 to |additions.value|
      invariant members == Splice(book.members, position - 1, additions.value[..offset])
    {
      var at := position - 1 + offset;
      members := members[..at] + [additions.value[offset]] + members[at..];
    }
    assert additions.value[..|additions.value|] == additions.value;
    r := Ok(book.(members := members));
  }

  method RemoveMembers(book: Book, payload: Value) returns (r: Result<Book>)
    requires payload.Table?
    ensures r == Removed(book, payload)
  {
    var ids := Get(payload, "blueprintIds");
    if !ids.Table? {
      return Err("INVALID_BOOK_MEMBERS");
    }
    var removals := ScanIds(ids.list, REMOVAL_RULES, Elements(book.members), {});
    if removals.Err? {
      return Err(removals.code);
    }
    if |removals.value| < 1 {
      return Err("INVALID_BOOK_MEMBERS");
    }
    var members, touched := Pruned(book.members, Elements(removals.value));
    r := Ok(book.(members := members));
  }

  method ReorderMembers(book: Book, payload: Value) returns (r: Result<Book>)
    requires payload.Table?
    ensures r == Reordered(book, payload)
  {
    var ids := Get(payload, "blueprintIds");
    if !ids.Table? {
      return Err("INVALID_BOOK_MEMBERS");
    }
    var ordered := ScanIds(ids.list, ORDER_RULES, Elements(book.members), {});
    if ordered.Err? {
      return Err(ordered.code);
    }
    if |ordered.value| != |book.members| {
      return Err("BOOK_ORDER_MISMATCH");
    }
    r := Ok(book.(members := ordered.value));
  }
}
