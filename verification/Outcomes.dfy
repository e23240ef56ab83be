/** What each call of the library leaves behind, told without the functions that compute it. */
module Outcomes {
  import opened LuaValues
  import opened Inboxes
  import opened Books
  import opened Ids
  import opened Library

  // ----------------------------------------------------------------------- what stays of a list

  /** `kept` is `s` less `gone`: the rest, all of it, in order and as often as before. */
  ghost predicate Less(s: seq<string>, gone: set<string>, kept: seq<string>) {
    && (forall x :: x in kept <==> x in s && x !in gone)
    && InOrderOf(kept, s)
    && (Distinct(s) ==> Distinct(kept))
  }

  lemma BeforeLater(x: string, s: seq<string>, a: string, b: string)
    requires Before(s, a, b)
    ensures Before([x] + s, a, b)
  {
    var i, j :| 0 <= i < j < |s| && s[i] == a && s[j] == b;
    assert ([x] + s)[i + 1] == a && ([x] + s)[j + 1] == b;
  }

  lemma {:induction false} WithoutIsLess(s: seq<string>, gone: set<string>)
    ensures Less(s, gone, Without(s, gone))
  {
    WithoutElements(s, gone);
    if s != [] {
      WithoutIsLess(s[1..], gone);
      var kept, rest := Without(s, gone), Without(s[1..], gone);
      assert s == [s[0]] + s[1..];
      forall i, j | 0 <= i < j < |kept| ensures Before(s, kept[i], kept[j]) {
        if s[0] in gone {
          BeforeLater(s[0], s[1..], kept[i], kept[j]);
        } else if i == 0 {
          assert kept[j] in rest && kept[j] in s[1..];
          var b :| 0 <= b < |s[1..]| && s[1..][b] == kept[j];
          assert s[0] == kept[0] && s[b + 1] == kept[j];
        } else {
          assert kept[i] == rest[i - 1] && kept[j] == rest[j - 1];
          BeforeLater(s[0], s[1..], kept[i], kept[j]);
        }
      }
    }
  }

  /** A book some members of which went: it keeps the others, and is stamped if any went. */
  ghost predicate Shrunk(before: Book, gone: set<string>, now: Value, after: Book) {
    && after == before.(members := after.members, updatedTick := after.updatedTick)
    && Less(before.members, gone, after.members)
    && after.updatedTick == (if exists m :: m in before.members && m in gone then now else before.updatedTick)
    && ((forall m | m in before.members :: m !in gone) ==> after == before)
  }

  lemma ForgetShrinks(book: Book, gone: set<string>, now: Value)
    ensures Shrunk(book, gone, now, Forget(book, gone, now))
  {
    ForgetMembers(book, gone, now);
    WithoutIsLess(book.members, gone);
  }

  ghost predicate AllShrunk(before: map<string, Book>, gone: set<string>, now: Value, after: map<string, Book>) {
    after.Keys == before.Keys && forall id | id in before :: Shrunk(before[id], gone, now, after[id])
  }

  lemma ForgetAllShrinks(books: map<string, Book>, gone: set<string>, now: Value)
    ensures AllShrunk(books, gone, now, ForgetAll(books, gone, now))
  {
    forall id | id in books ensures Shrunk(books[id], gone, now, ForgetAll(books, gone, now)[id]) {
      ForgetShrinks(books[id], gone, now);
    }
  }

  // --------------------------------------------------------------------------------- saving

  /** The identifier of the record a save stores. */
  function SavedId(player: nat, number: nat): string {
    "blueprint:" + Decimal(player) + ":" + Decimal(number)
  }

  /** The `k` records at the front of the order went, the rest are as they were, and the
      new one stands behind them with the layout that was saved. */
  ghost predicate Appended(before: Inbox, k: nat, id: string, canonical: Value, bytes: nat, now: Value, after: Inbox) {
    && k <= |before.order|
    && after.order == before.order[k..] + [id]
    && (forall x :: x in after.byId <==> x == id || (x in before.byId && x !in before.order[..k]))
    && (forall x | x in after.byId && x != id :: after.byId[x] == before.byId[x])
    && canonical.Table? && Get(canonical, "name").Str?
    && id in after.byId
    && after.byId[id] == Record(id, Get(canonical, "name").text, bytes, now, now, [Revision(Num(1.0), canonical)])
    && after.bookOrder == before.bookOrder
    && AllShrunk(before.books, Elements(before.order[..k]), now, after.books)
  }

  /** Without the first `k` records there is room, and with one more of them there is not. */
  ghost predicate LeastRoom(before: Inbox, k: nat, bytes: nat) {
    && k <= |before.order|
    && |before.order| - k < 100 && Total(before.order[k..], before.byId) + bytes <= 524288
    && (k > 0 ==> |before.order| - k + 1 >= 100 || Total(before.order[k - 1..], before.byId) + bytes > 524288)
  }

  lemma SuffixBytes(inbox: Inbox, k: nat)
    requires WellFormed(inbox) && k <= |inbox.order|
    ensures inbox.bytes - Total(inbox.order[..k], inbox.byId) == Total(inbox.order[k..], inbox.byId)
  {
    assert inbox.order == inbox.order[..k] + inbox.order[k..];
    TotalConcat(inbox.order[..k], inbox.order[k..], inbox.byId);
  }

  lemma EvictionLeavesRoom(inbox: Inbox, bytes: nat, now: Value)
    requires WellFormed(inbox) && bytes <= MAX_BLUEPRINT_BYTES_PER_PLAYER
    ensures LeastRoom(inbox, EvictionCount(inbox, bytes), bytes)
  {
    var k := EvictionCount(inbox, bytes);
    EvictionIsMinimal(inbox, bytes, now);
    SuffixBytes(inbox, k);
    if k > 0 {
      SuffixBytes(inbox, k - 1);
    }
  }

  lemma SavedIsAppended(inbox: Inbox, player: nat, number: nat, canonical: Value, bytes: nat, now: Value)
    requires Distinct(inbox.order) && (forall x :: x in inbox.order <==> x in inbox.byId)
    requires canonical.Table? && Get(canonical, "name").Str?
    ensures var record := NewRecord(BlueprintId(player, number), canonical, bytes, now);
            Appended(inbox, EvictionCount(inbox, bytes), SavedId(player, number), canonical, bytes, now, Saved(inbox, record, now))
  {
    var k := EvictionCount(inbox, bytes);
    ForgetAllShrinks(inbox.books, Elements(inbox.order[..k]), now);
    BookIdText(player, number);
  }

  /** A save that went through: the shortest run of records at the front of the order that
      makes room is gone, and the saved layout stands at the end. */
  lemma SaveOutcome(before: Inbox, player: nat, number: nat, canonical: Value, bytes: nat, now: Value, after: Inbox, next: nat)
    requires WellFormed(before) && bytes <= 524288 && canonical.Table? && Get(canonical, "name").Str?
    requires Stepped(before, number, Call(player, now, Request.Save(canonical, bytes, true)), after, next)
    ensures |after.order| <= |before.order| + 1 && next == number + 1
    ensures var k := |before.order| + 1 - |after.order|;
            && k == EvictionCount(before, bytes)
            && Appended(before, k, SavedId(player, number), canonical, bytes, now, after) && LeastRoom(before, k, bytes)
  {
    SaveIsSaved(before, player, number, canonical, bytes, now, after, next);
    EvictionLeavesRoom(before, bytes, now);
    SavedIsAppended(before, player, number, canonical, bytes, now);
  }

  lemma SaveIsSaved(before: Inbox, player: nat, number: nat, canonical: Value, bytes: nat, now: Value, after: Inbox, next: nat)
    requires bytes <= 524288
    requires Stepped(before, number, Call(player, now, Request.Save(canonical, bytes, true)), after, next)
    ensures next == number + 1 && after == Saved(before, NewRecord(BlueprintId(player, number), canonical, bytes, now), now)
    ensures EvictionCount(before, bytes) == |before.order| + 1 - |after.order|
  {
  }

  // --------------------------------------------------------------------------- other calls

  /** A deleted blueprint leaves the table, the order and every book, and nothing else changes. */
  lemma DeleteOutcome(before: Inbox, id: string, now: Value, player: nat, number: nat, after: Inbox, next: nat)
    requires WellFormed(before) && Stepped(before, number, Call(player, now, Request.Delete(Str(id))), after, next)
    ensures next == number
    ensures id !in before.byId ==> after == before
    ensures id in before.byId ==>
              && Less(before.order, {id}, after.order)
              && after.byId.Keys == before.byId.Keys - {id} && (forall x | x in after.byId :: after.byId[x] == before.byId[x])
              && after.bytes == before.bytes - before.byId[id].bytes
              && after.bookOrder == before.bookOrder && AllShrunk(before.books, {id}, now, after.books)
  {
    WithoutIsLess(before.order, {id});
    ForgetAllShrinks(before.books, {id}, now);
  }

  /** A deleted book leaves shelf and order; every blueprint and every other book stays. */
  lemma DeleteBookOutcome(before: Inbox, id: string, now: Value, player: nat, number: nat, after: Inbox, next: nat)
    requires Stepped(before, number, Call(player, now, Request.DeleteBook(Str(id))), after, next)
    ensures next == number
    ensures after.order == before.order && after.byId == before.byId && after.bytes == before.bytes
    ensures id !in before.books ==> after == before
    ensures id in before.books ==>
              && Less(before.bookOrder, {id}, after.bookOrder)
              && after.books.Keys == before.books.Keys - {id} && forall x | x in after.books :: after.books[x] == before.books[x]
  {
    WithoutIsLess(before.bookOrder, {id});
  }

  // ---------------------------------------------------------------------------- book edits

  /** One to fifty different strings, each naming something in `known` and nothing in `taken`. */
  ghost predicate GoodList(ids: Value, known: set<string>, taken: set<string>) {
    && ids.Table? && 1 <= |ids.list| <= 50
    && (forall i | 0 <= i < |ids.list| :: ids.list[i].Str? && ids.list[i].text in known && ids.list[i].text !in taken)
    && forall i, j | 0 <= i < j < |ids.list| :: ids.list[i] != ids.list[j]
  }

  lemma GoodListCollects(ids: Value, known: set<string>, taken: set<string>)
    ensures CollectMembers(ids, known, taken).Ok? <==> GoodList(ids, known, taken)
    ensures CollectMembers(ids, known, taken).Ok? ==> Strs(CollectMembers(ids, known, taken).value) == ids.list
  {
    CollectExact(ids, known, taken);
  }

  /** The first `n` entries are fine and the next one is not, for the reason `code` names. */
  ghost predicate StopsAt(list: seq<Value>, rules: Rules, known: set<string>, taken: set<string>, n: nat, code: string) {
    && n < |list| && Acceptable(list[..n], rules, known, taken)
    && if rules.limit.Some? && n >= rules.limit.value then code == "INVALID_BOOK_MEMBERS"
       else if !list[n].Str? then code == rules.notString
       else if list[n] in list[..n] || list[n].text in taken then code == rules.duplicate
       else list[n].text !in known && code == rules.unknown
  }

  lemma {:induction false} ScanStops(list: seq<Value>, rules: Rules, known: set<string>, taken: set<string>) returns (n: nat)
    requires Scan(list, rules, known, taken).Err?
    ensures StopsAt(list, rules, known, taken, n, Scan(list, rules, known, taken).code)
  {
    var init, id := list[..|list| - 1], list[|list| - 1];
    var before := Scan(init, rules, known, taken);
    if before.Err? {
      n := ScanStops(init, rules, known, taken);
      assert init[..n] == list[..n];
    } else {
      n := |init|;
      ScanExact(init, rules, known, taken);
      if id.Str? {
        StrsElements(init, before.value, id.text);
      }
    }
  }

  /** With which error a list of new members is refused: that of its first bad entry. */
  lemma CollectRefusal(ids: Value, known: set<string>, taken: set<string>) returns (n: nat)
    requires CollectMembers(ids, known, taken).Err?
    ensures if !ids.Table? || ids.list == [] then CollectMembers(ids, known, taken).code == "INVALID_BOOK_MEMBERS"
            else StopsAt(ids.list, Rules(Some(50), "INVALID_BLUEPRINT_ID", "DUPLICATE_BOOK_MEMBER", "BLUEPRINT_NOT_FOUND"), known, taken,
                         n, CollectMembers(ids, known, taken).code)
  {
    n := 0;
    if ids.Table? && ids.list != [] {
      CollectExact(ids, known, taken);
      if Scan(ids.list, MEMBER_RULES, known, taken).Ok? {
        ScanExact(ids.list, MEMBER_RULES, known, taken);
        assert false;
      }
      n := ScanStops(ids.list, MEMBER_RULES, known, taken);
    }
  }

  /** With which error an edit is refused. */
  lemma EditRefusal(book: Book, payload: Value, stored: set<string>, now: Value)
    requires payload.Table? && Edited(book, payload, stored, now).Err?
    ensures var operation, code := Get(payload, "operation"), Edited(book, payload, stored, now).code;
            var ids, name, text := Get(payload, "blueprintIds"), Get(payload, "name"), Get(payload, "description");
            && (operation == Str("rename") ==>
                  code == if name == Nil && text == Nil then "INVALID_BOOK_UPDATE"
                          else if name != Nil && !TextOk(name, 1, 100) then "INVALID_BOOK_NAME" else "INVALID_BOOK_DESCRIPTION")
            && (operation == Str("add") && GoodList(ids, stored, Elements(book.members)) ==>
                  code == if |book.members| + |ids.list| > 50 then "BOOK_MEMBER_LIMIT_REACHED" else "INVALID_BOOK_POSITION")
            && (operation in {Str("remove"), Str("reorder")} && !ids.Table? ==> code == "INVALID_BOOK_MEMBERS")
            && (operation !in {Str("rename"), Str("add"), Str("remove"), Str("reorder")} ==> code == "INVALID_BOOK_OPERATION")
  {
    GoodListCollects(Get(payload, "blueprintIds"), stored, Elements(book.members));
  }

  /** With which error a list of members to remove, or a new order, is refused. */
  lemma MemberListRefusal(book: Book, payload: Value)
    requires payload.Table? && Get(payload, "blueprintIds").Table?
    ensures var list, known := Get(payload, "blueprintIds").list, Elements(book.members);
            && (Removed(book, payload).Err? ==>
                  || (list == [] && Removed(book, payload).code == "INVALID_BOOK_MEMBERS")
                  || exists k: nat :: StopsAt(list, Rules(Some(50), "DUPLICATE_BOOK_MEMBER", "DUPLICATE_BOOK_MEMBER", "BOOK_MEMBER_NOT_FOUND"),
                                              known, {}, k, Removed(book, payload).code))
            && (Reordered(book, payload).Err? ==> Reordered(book, payload).code == "BOOK_ORDER_MISMATCH")
  {
    var list, known := Get(payload, "blueprintIds").list, Elements(book.members);
    if Scan(list, REMOVAL_RULES, known, {}).Err? {
      var n := ScanStops(list, REMOVAL_RULES, known, {});
    } else {
      ScanExact(list, REMOVAL_RULES, known, {});
    }
    if Scan(list, ORDER_RULES, known, {}).Err? {
      var k := ScanStops(list, ORDER_RULES, known, {});
    }
  }

  ghost predicate TextOk(v: Value, low: nat, high: nat) {
    v.Str? && low <= |v.text| <= high
  }

  /** A rename changes the name, the description or both; an empty description clears it. */
  lemma RenameOutcome(book: Book, payload: Value, stored: set<string>, now: Value)
    requires payload.Table? && Get(payload, "operation") == Str("rename")
    ensures var name, text, r := Get(payload, "name"), Get(payload, "description"), Edited(book, payload, stored, now);
            && (r.Ok? <==> (name != Nil || text != Nil) && (name == Nil || TextOk(name, 1, 100)) && (text == Nil || TextOk(text, 0, 1000)))
            && (r.Ok? ==>
                  && r.value == book.(name := r.value.name, description := r.value.description, updatedTick := now)
                  && (if name == Nil then r.value.name == book.name else Str(r.value.name) == name)
                  && if text == Nil then r.value.description == book.description
                     else if text == Str("") then r.value.description == None
                     else r.value.description.Some? && Str(r.value.description.value) == text)
  {
  }

  /** `at` members stand in front of the place asked for: by default all of them. */
  ghost predicate Placed(place: Value, count: nat, at: nat) {
    at <= count && if place == Nil then at == count else place == Num((at + 1) as real)
  }

  /** An accepted addition puts the whole list in at the requested place, by default behind
      the last member, and moves nothing else. */
  lemma AddOutcome(book: Book, payload: Value, stored: set<string>, now: Value)
    requires payload.Table? && Get(payload, "operation") == Str("add")
    ensures var ids, place, r := Get(payload, "blueprintIds"), Get(payload, "position"), Edited(book, payload, stored, now);
            && (r.Ok? <==>
                  && GoodList(ids, stored, Elements(book.members)) && |book.members| + |ids.list| <= 50
                  && exists at: nat :: Placed(place, |book.members|, at))
            && (r.Ok? ==>
                  && r.value == book.(members := r.value.members, updatedTick := now)
                  && forall at: nat | Placed(place, |book.members|, at) ::
                       Strs(r.value.members) == Strs(book.members[..at]) + ids.list + Strs(book.members[at..]))
  {
    var ids, place := Get(payload, "blueprintIds"), Get(payload, "position");
    GoodListCollects(ids, stored, Elements(book.members));
    PlacedExactly(place, |book.members|);
    var r := Edited(book, payload, stored, now);
    if r.Ok? {
      var additions := CollectMembers(ids, stored, Elements(book.members)).value;
      forall at: nat | Placed(place, |book.members|, at)
        ensures Strs(r.value.members) == Strs(book.members[..at]) + ids.list + Strs(book.members[at..])
      {
        assert r.value.members == Splice(book.members, at, additions);
        StrsConcat(book.members[..at] + additions, book.members[at..]);
        StrsConcat(book.members[..at], additions);
      }
    }
  }

  lemma PlacedExactly(place: Value, count: nat)
    ensures (exists at: nat :: Placed(place, count, at)) <==> place == Nil || IntegerIn(place, 1, count + 1)
    ensures forall at: nat | Placed(place, count, at) && place != Nil :: place.number.Floor == at + 1
  {
    if place == Nil {
      assert Placed(place, count, count);
    } else if IntegerIn(place, 1, count + 1) {
      assert Placed(place, count, place.number.Floor - 1);
    }
  }

  lemma StrsConcat(a: seq<string>, b: seq<string>)
    ensures Strs(a + b) == Strs(a) + Strs(b)
  {
  }

  /** An accepted removal takes out exactly the listed members. */
  lemma RemoveOutcome(book: Book, payload: Value, stored: set<string>, now: Value)
    requires payload.Table? && Get(payload, "operation") == Str("remove")
    ensures var ids, r := Get(payload, "blueprintIds"), Edited(book, payload, stored, now);
            && (r.Ok? <==> GoodList(ids, Elements(book.members), {}))
            && (r.Ok? ==>
                  && r.value == book.(members := r.value.members, updatedTick := now)
                  && Less(book.members, (set m | m in book.members && Str(m) in ids.list), r.value.members))
  {
    var ids, known := Get(payload, "blueprintIds"), Elements(book.members);
    if ids.Table? {
      ScanExact(ids.list, REMOVAL_RULES, known, {});
      var removals := Scan(ids.list, REMOVAL_RULES, known, {});
      if removals.Ok? && removals.value != [] {
        RemovalElements(ids.list, removals.value, known);
        WithoutIsLess(book.members, Elements(removals.value));
      }
    }
  }

  lemma RemovalElements(list: seq<Value>, texts: seq<string>, known: set<string>)
    requires Strs(texts) == list && forall i | 0 <= i < |list| :: list[i].Str? && list[i].text in known
    ensures Elements(texts) == set m | m in known && Str(m) in list
  {
    forall m ensures m in texts <==> m in known && Str(m) in list {
      StrsElements(list, texts, m);
      if m in texts {
        var i :| 0 <= i < |texts| && texts[i] == m;
        assert list[i] == Str(m);
      }
    }
  }

  /** A reorder is accepted for the current members in any order, and leaves them in that order. */
  lemma ReorderOutcome(book: Book, payload: Value, stored: set<string>, now: Value)
    requires payload.Table? && Get(payload, "operation") == Str("reorder") && Distinct(book.members)
    ensures var ids, r := Get(payload, "blueprintIds"), Edited(book, payload, stored, now);
            && (r.Ok? <==> ids.Table? && exists order :: ids.list == Strs(order) && multiset(order) == multiset(book.members))
            && (r.Ok? ==> r.value == book.(members := r.value.members, updatedTick := now) && Strs(r.value.members) == ids.list)
  {
    ReorderIsPermutation(book, payload);
    if Get(payload, "blueprintIds").Table? {
      ScanExact(Get(payload, "blueprintIds").list, ORDER_RULES, Elements(book.members), {});
    }
  }

  lemma NoOtherEdit(book: Book, payload: Value, stored: set<string>, now: Value)
    requires payload.Table? && Get(payload, "operation") !in {Str("rename"), Str("add"), Str("remove"), Str("reorder")}
    ensures Edited(book, payload, stored, now).Err?
  {
  }

  /** An edit replaces the one book it names, or changes nothing at all. */
  lemma UpdateBookOutcome(before: Inbox, payload: Value, now: Value, player: nat, number: nat, after: Inbox, next: nat)
    requires payload.Table? && Get(payload, "bookId").Str?
    requires Stepped(before, number, Call(player, now, Request.UpdateBook(payload)), after, next)
    ensures var id := Get(payload, "bookId").text;
            && next == number && after == before.(books := after.books)
            && (if id in before.books && Edited(before.books[id], payload, before.byId.Keys, now).Ok?
                then after.books == before.books[id := Edited(before.books[id], payload, before.byId.Keys, now).value]
                else after == before)
  {
  }

  ghost predicate CreateAccepted(before: Inbox, name: Value, ids: Value, text: Value) {
    && TextOk(name, 1, 100) && (text == Nil || TextOk(text, 0, 1000))
    && GoodList(ids, before.byId.Keys, {}) && |before.bookOrder| < 20
  }

  /** A new book stands behind the others with the listed members, and only if there is a
      place on the shelf; no record is touched. */
  lemma CreateBookOutcome(
      before: Inbox, player: nat, number: nat, name: Value, ids: Value, text: Value, now: Value, after: Inbox, next: nat)
    requires Stepped(before, number, Call(player, now, Request.CreateBook(name, ids, text)), after, next)
    ensures !CreateAccepted(before, name, ids, text) ==> next == number && after == before
    ensures CreateAccepted(before, name, ids, text) ==>
              var id := "book:" + Decimal(player) + ":" + Decimal(number);
              && next == number + 1
              && after == before.(books := after.books, bookOrder := before.bookOrder + [id])
              && after.books.Keys == before.books.Keys + {id}
              && (forall x | x in before.books && x != id :: after.books[x] == before.books[x])
              && Created(after.books[id], id, name, ids, text, now)
  {
    var id := "book:" + Decimal(player) + ":" + Decimal(number);
    BookIdText(player, number);
    GoodListCollects(ids, before.byId.Keys, {});
    var request := Request.CreateBook(name, ids, text);
    assert CreateAccepted(before, name, ids, text) <==> !Refused(request) && Mints(before, request);
    if CreateAccepted(before, name, ids, text) {
      var members := CollectMembers(ids, before.byId.Keys, {}).value;
      var book := Book(id, name.text, DescriptionOf(text), members, now, now);
      assert Created(book, id, name, ids, text, now);
      assert after == BookCreated(before, book);
    }
  }

  lemma BookIdText(player: nat, number: nat)
    ensures BookId(player, number) == "book:" + Decimal(player) + ":" + Decimal(number)
    ensures BlueprintId(player, number) == SavedId(player, number)
  {
    assert "book:" + Decimal(player) + ":" + Decimal(number) == "book:" + (Decimal(player) + ":" + Decimal(number));
    assert "blueprint:" + Decimal(player) + ":" + Decimal(number) == "blueprint:" + (Decimal(player) + ":" + Decimal(number));
  }

  ghost predicate Created(book: Book, id: string, name: Value, ids: Value, text: Value, now: Value)
    requires ids.Table?
  {
    && book.id == id && Str(book.name) == name && Strs(book.members) == ids.list
    && (if text == Nil || text == Str("") then book.description == None
        else book.description.Some? && Str(book.description.value) == text)
    && book.createdTick == now && book.updatedTick == now
  }
}
