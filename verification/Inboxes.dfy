/** The per-player blueprint inbox as a value: what each operation leaves behind,
    and why every one of them keeps the five linked structures in agreement. */
module Inboxes {
  import opened LuaValues

  const MAX_BLUEPRINTS_PER_PLAYER := 100
  const MAX_BLUEPRINT_BYTES_PER_PLAYER := 512 * 1024
  const MAX_BOOKS_PER_PLAYER := 20
  const MAX_BOOK_MEMBERS := 50

  datatype Revision = Revision(revision: Value, layout: Value)

  datatype Record = Record(
    id: string, name: string, bytes: nat, createdTick: Value, updatedTick: Value, revisions: seq<Revision>)

  datatype Book = Book(
    id: string, name: string, description: Option<string>, members: seq<string>, createdTick: Value, updatedTick: Value)

  datatype Inbox = Inbox(
    order: seq<string>, byId: map<string, Record>, bytes: int, books: map<string, Book>, bookOrder: seq<string>)

  const EMPTY_INBOX := Inbox([], map[], 0, map[], [])

  // --------------------------------------------------------------------- well-formedness

  /** The list names exactly the keys of the map, once each. */
  ghost predicate Lists<T>(order: seq<string>, entries: map<string, T>) {
    Distinct(order) && forall id :: id in order <==> id in entries
  }

  /** The bytes the listed records account for. */
  function Total(order: seq<string>, byId: map<string, Record>): nat {
    if order == [] then 0
    else (if order[0] in byId then byId[order[0]].bytes else 0) + Total(order[1..], byId)
  }

  predicate RecordSound(id: string, record: Record) {
    && record.id == id
    && 0 < |record.name| <= 100
    && record.revisions != []
    && var latest := record.revisions[|record.revisions| - 1].layout;
       latest.Table? && Get(latest, "name") == Str(record.name)
  }

  ghost predicate BookSound(id: string, book: Book, byId: map<string, Record>) {
    && book.id == id
    && 0 < |book.name| <= 100
    && (book.description.Some? ==> 0 < |book.description.value| <= 1000)
    && Distinct(book.members)
    && |book.members| <= MAX_BOOK_MEMBERS
    && (forall m | m in book.members :: m in byId)
  }

  ghost predicate RecordsWellFormed(inbox: Inbox) {
    && Lists(inbox.order, inbox.byId)
    && (forall id | id in inbox.byId :: RecordSound(id, inbox.byId[id]))
    && inbox.bytes == Total(inbox.order, inbox.byId)
    && |inbox.order| <= MAX_BLUEPRINTS_PER_PLAYER
    && inbox.bytes <= MAX_BLUEPRINT_BYTES_PER_PLAYER
  }

  ghost predicate BooksWellFormed(inbox: Inbox) {
    && Lists(inbox.bookOrder, inbox.books)
    && |inbox.bookOrder| <= MAX_BOOKS_PER_PLAYER
    && (forall id | id in inbox.books :: BookSound(id, inbox.books[id], inbox.byId))
  }

  ghost predicate WellFormed(inbox: Inbox) {
    RecordsWellFormed(inbox) && BooksWellFormed(inbox)
  }

  // -------------------------------------------------------------------- list operations

  /** `s` with every element of `gone` taken out, the rest in order. */
  function Without(s: seq<string>, gone: set<string>): seq<string> {
    if s == [] then []
    else if s[0] in gone then Without(s[1..], gone)
    else [s[0]] + Without(s[1..], gone)
  }

  lemma {:induction false} WithoutElements(s: seq<string>, gone: set<string>)
    ensures forall x :: x in Without(s, gone) <==> x in s && x !in gone
    ensures |Without(s, gone)| <= |s|
    ensures Distinct(s) ==> Distinct(Without(s, gone))
  {
    if s != [] {
      WithoutElements(s[1..], gone);
      assert s == [s[0]] + s[1..];
      if Distinct(s) {
        assert s[0] !in s[1..];
      }
    }
  }

  lemma {:induction false} WithoutNothing(s: seq<string>, gone: set<string>)
    requires forall x | x in s :: x !in gone
    ensures Without(s, gone) == s
  {
    if s != [] {
      WithoutNothing(s[1..], gone);
    }
  }

  lemma {:induction false} WithoutOne(s: seq<string>, id: string)
    requires Distinct(s)
    ensures id in s ==> |Without(s, {id})| == |s| - 1
  {
    if id in s {
      assert s == [s[0]] + s[1..];
      if s[0] == id {
        assert s[0] !in s[1..];
        WithoutNothing(s[1..], {id});
      } else {
        WithoutOne(s[1..], id);
      }
    }
  }

  lemma {:induction false} WithoutTwice(s: seq<string>, a: set<string>, b: set<string>)
    ensures Without(Without(s, a), b) == Without(s, a + b)
  {
    if s != [] {
      WithoutTwice(s[1..], a, b);
      if s[0] !in a {
        assert Without(s, a)[1..] == Without(s[1..], a);
      }
    }
  }

  lemma {:induction false} WithoutConcat(s: seq<string>, t: seq<string>, gone: set<string>)
    ensures Without(s + t, gone) == Without(s, gone) + Without(t, gone)
  {
    if s == [] {
      assert s + t == t;
    } else {
      WithoutConcat(s[1..], t, gone);
      assert (s + t)[1..] == s[1..] + t && (s + t)[0] == s[0];
      if s[0] !in gone {
        assert [s[0]] + (Without(s[1..], gone) + Without(t, gone)) == [s[0]] + Without(s[1..], gone) + Without(t, gone);
      }
    }
  }

  lemma {:induction false} WithoutAll(s: seq<string>, gone: set<string>)
    requires forall x | x in s :: x in gone
    ensures Without(s, gone) == []
  {
    if s != [] {
      WithoutAll(s[1..], gone);
    }
  }

  lemma {:induction false} TotalConcat(s: seq<string>, t: seq<string>, byId: map<string, Record>)
    ensures Total(s + t, byId) == Total(s, byId) + Total(t, byId)
  {
    if s == [] {
      assert s + t == t;
    } else {
      TotalConcat(s[1..], t, byId);
      assert (s + t)[1..] == s[1..] + t;
    }
  }

  lemma {:induction false} TotalAgrees(s: seq<string>, a: map<string, Record>, b: map<string, Record>)
    requires forall id | id in s :: id in a && id in b && a[id].bytes == b[id].bytes
    ensures Total(s, a) == Total(s, b)
  {
    if s != [] {
      TotalAgrees(s[1..], a, b);
    }
  }

  lemma {:induction false} TotalWithout(s: seq<string>, id: string, byId: map<string, Record>)
    requires Distinct(s) && id in s && id in byId
    ensures Total(Without(s, {id}), byId) == Total(s, byId) - byId[id].bytes
  {
    if s[0] == id {
      WithoutNothing(s[1..], {id});
    } else {
      TotalWithout(s[1..], id, byId);
      assert Without(s, {id})[1..] == Without(s[1..], {id});
    }
  }

  // ------------------------------------------------------------------- forgetting members

  predicate Touched(book: Book, gone: set<string>) {
    exists m :: m in book.members && m in gone
  }

  /** A book after the records of `gone` left the inbox at tick `now`. */
  function Forget(book: Book, gone: set<string>, now: Value): Book {
    if Touched(book, gone)
    then book.(members := Without(book.members, gone), updatedTick := now)
    else book
  }

  function ForgetAll(books: map<string, Book>, gone: set<string>, now: Value): map<string, Book> {
    map id | id in books :: Forget(books[id], gone, now)
  }

  lemma ForgetMembers(book: Book, gone: set<string>, now: Value)
    ensures Forget(book, gone, now).members == Without(book.members, gone)
  {
    if !Touched(book, gone) {
      WithoutNothing(book.members, gone);
    }
  }

  lemma ForgetTwice(book: Book, a: set<string>, b: set<string>, now: Value)
    ensures Forget(Forget(book, a, now), b, now) == Forget(book, a + b, now)
  {
    ForgetMembers(book, a, now);
    WithoutTwice(book.members, a, b);
    WithoutElements(book.members, a);
    if Touched(book, a + b) {
      var m :| m in book.members && m in a + b;
      if m in a {
        assert Touched(book, a);
      } else if !Touched(book, a) {
        assert Touched(book, b);
      }
    }
    if !Touched(Forget(book, a, now), b) {
      WithoutNothing(Forget(book, a, now).members, b);
    }
  }

  lemma ForgetAllTwice(books: map<string, Book>, a: set<string>, b: set<string>, now: Value)
    ensures ForgetAll(ForgetAll(books, a, now), b, now) == ForgetAll(books, a + b, now)
  {
    forall id | id in books ensures Forget(Forget(books[id], a, now), b, now) == Forget(books[id], a + b, now) {
      ForgetTwice(books[id], a, b, now);
    }
  }

  lemma ForgetKeepsSound(id: string, book: Book, gone: set<string>, now: Value, byId: map<string, Record>)
    requires BookSound(id, book, byId)
    ensures BookSound(id, Forget(book, gone, now), byId - gone)
  {
    ForgetMembers(book, gone, now);
    WithoutElements(book.members, gone);
  }

  lemma ForgetAllKeepsBooks(inbox: Inbox, gone: set<string>, now: Value)
    requires BooksWellFormed(inbox)
    ensures BooksWellFormed(inbox.(byId := inbox.byId - gone, books := ForgetAll(inbox.books, gone, now)))
  {
    forall id | id in inbox.books
      ensures BookSound(id, Forget(inbox.books[id], gone, now), inbox.byId - gone)
    {
      ForgetKeepsSound(id, inbox.books[id], gone, now, inbox.byId);
    }
  }

  // ----------------------------------------------------------------------------- eviction

  /** The inbox without its `k` oldest records. */
  function DropOldest(inbox: Inbox, k: nat, now: Value): Inbox
    requires k <= |inbox.order|
  {
    var gone := Elements(inbox.order[..k]);
    Inbox(inbox.order[k..], inbox.byId - gone, inbox.bytes - Total(inbox.order[..k], inbox.byId),
          ForgetAll(inbox.books, gone, now), inbox.bookOrder)
  }

  /** With the `k` oldest records gone there is room for `extra` bytes, or nothing is left to drop. */
  predicate Fits(inbox: Inbox, k: nat, extra: nat) {
    && k <= |inbox.order|
    && (k == |inbox.order|
        || (|inbox.order| - k < MAX_BLUEPRINTS_PER_PLAYER
            && inbox.bytes - Total(inbox.order[..k], inbox.byId) + extra <= MAX_BLUEPRINT_BYTES_PER_PLAYER))
  }

  /** The shortest oldest-first prefix that makes room. */
  function EvictionCount(inbox: Inbox, extra: nat, from: nat := 0): (k: nat)
    requires from <= |inbox.order|
    ensures from <= k && Fits(inbox, k, extra)
    ensures forall j | from <= j < k :: !Fits(inbox, j, extra)
    decreases |inbox.order| - from
  {
    if Fits(inbox, from, extra) then from else EvictionCount(inbox, extra, from + 1)
  }

  lemma DropNothing(inbox: Inbox, now: Value)
    ensures DropOldest(inbox, 0, now) == inbox
  {
    assert Elements(inbox.order[..0]) == {};
    assert inbox.byId - {} == inbox.byId;
    assert ForgetAll(inbox.books, {}, now) == inbox.books;
  }

  lemma DropOneMore(inbox: Inbox, k: nat, now: Value)
    requires k < |inbox.order|
    requires Distinct(inbox.order)
    ensures DropOldest(DropOldest(inbox, k, now), 1, now) == DropOldest(inbox, k + 1, now)
  {
    var before, id := inbox.order[..k], inbox.order[k];
    assert inbox.order[..k + 1] == before + [id];
    assert inbox.order[k..][..1] == [id] && inbox.order[k..][1..] == inbox.order[k + 1..];
    assert Elements(before + [id]) == Elements(before) + {id};
    assert Elements([id]) == {id};
    TotalConcat(before, [id], inbox.byId);
    assert id !in Elements(before);
    assert Total([id], inbox.byId - Elements(before)) == Total([id], inbox.byId);
    ForgetAllTwice(inbox.books, Elements(before), {id}, now);
  }

  lemma DropKeepsWellFormed(inbox: Inbox, k: nat, now: Value)
    requires WellFormed(inbox) && k <= |inbox.order|
    ensures WellFormed(DropOldest(inbox, k, now))
  {
    DropKeepsRecords(inbox, k, now);
    ForgetAllKeepsBooks(inbox, Elements(inbox.order[..k]), now);
  }

  lemma SuffixTotal(order: seq<string>, k: nat, byId: map<string, Record>)
    requires k <= |order| && Distinct(order) && forall id | id in order :: id in byId
    ensures Total(order, byId) == Total(order[..k], byId) + Total(order[k..], byId - Elements(order[..k]))
  {
    assert order == order[..k] + order[k..];
    TotalConcat(order[..k], order[k..], byId);
    forall i, j | 0 <= i < k <= j < |order| ensures order[j] != order[i] {
    }
    assert forall id | id in order[k..] :: id in order;
    TotalAgrees(order[k..], byId, byId - Elements(order[..k]));
  }

  lemma DropKeepsRecords(inbox: Inbox, k: nat, now: Value)
    requires RecordsWellFormed(inbox) && k <= |inbox.order|
    ensures RecordsWellFormed(DropOldest(inbox, k, now))
  {
    SuffixTotal(inbox.order, k, inbox.byId);
  }

  /** No book still names an evicted record, and every book keeps the rest in order. */
  lemma EvictedLeaveBooks(inbox: Inbox, k: nat, now: Value)
    requires k <= |inbox.order|
    ensures forall id, i | id in inbox.books && 0 <= i < k :: inbox.order[i] !in DropOldest(inbox, k, now).books[id].members
    ensures forall id | id in inbox.books ::
              DropOldest(inbox, k, now).books[id].members == Without(inbox.books[id].members, Elements(inbox.order[..k]))
  {
    var gone := Elements(inbox.order[..k]);
    forall id | id in inbox.books
      ensures Forget(inbox.books[id], gone, now).members == Without(inbox.books[id].members, gone)
      ensures forall i | 0 <= i < k :: inbox.order[i] !in Forget(inbox.books[id], gone, now).members
    {
      ForgetMembers(inbox.books[id], gone, now);
      WithoutElements(inbox.books[id].members, gone);
      assert forall i | 0 <= i < k :: inbox.order[i] == inbox.order[..k][i];
    }
  }

  /** Saving evicts the shortest oldest-first prefix that makes room: what stays are
      the newest records in their old order, the newcomer fits both caps, and keeping
      one more record would not have left it room. */
  lemma EvictionIsMinimal(inbox: Inbox, extra: nat, now: Value)
    requires WellFormed(inbox) && extra <= MAX_BLUEPRINT_BYTES_PER_PLAYER
    ensures var k := EvictionCount(inbox, extra);
            var left := DropOldest(inbox, k, now);
            && left.order == inbox.order[k..]
            && |left.order| < MAX_BLUEPRINTS_PER_PLAYER
            && left.bytes + extra <= MAX_BLUEPRINT_BYTES_PER_PLAYER
            && (k > 0 ==> var more := DropOldest(inbox, k - 1, now);
                          || |more.order| >= MAX_BLUEPRINTS_PER_PLAYER
                          || more.bytes + extra > MAX_BLUEPRINT_BYTES_PER_PLAYER)
  {
    var k := EvictionCount(inbox, extra);
    if k == |inbox.order| {
      assert inbox.order[..k] == inbox.order;
    }
    if k > 0 {
      assert !Fits(inbox, k - 1, extra);
    }
  }

  // ------------------------------------------------------------------------ saving, deleting

  function Stored(inbox: Inbox, record: Record): Inbox {
    inbox.(order := inbox.order + [record.id], byId := inbox.byId[record.id := record], bytes := inbox.bytes + record.bytes)
  }

  /** `save` past its guards: make room, then append. */
  function Saved(inbox: Inbox, record: Record, now: Value): Inbox {
    Stored(DropOldest(inbox, EvictionCount(inbox, record.bytes), now), record)
  }

  lemma StoreKeepsWellFormed(inbox: Inbox, record: Record)
    requires WellFormed(inbox) && record.id !in inbox.byId && RecordSound(record.id, record)
    requires |inbox.order| < MAX_BLUEPRINTS_PER_PLAYER
    requires inbox.bytes + record.bytes <= MAX_BLUEPRINT_BYTES_PER_PLAYER
    ensures WellFormed(Stored(inbox, record))
  {
    StoreKeepsRecords(inbox, record);
    StoreKeepsBooks(inbox, record);
  }

  lemma StoreKeepsRecords(inbox: Inbox, record: Record)
    requires RecordsWellFormed(inbox) && record.id !in inbox.byId && RecordSound(record.id, record)
    requires |inbox.order| < MAX_BLUEPRINTS_PER_PLAYER
    requires inbox.bytes + record.bytes <= MAX_BLUEPRINT_BYTES_PER_PLAYER
    ensures RecordsWellFormed(Stored(inbox, record))
  {
    var next := Stored(inbox, record);
    TotalConcat(inbox.order, [record.id], next.byId);
    TotalAgrees(inbox.order, inbox.byId, next.byId);
    assert Total([record.id], next.byId) == record.bytes;
  }

  lemma StoreKeepsBooks(inbox: Inbox, record: Record)
    requires BooksWellFormed(inbox)
    ensures BooksWellFormed(Stored(inbox, record))
  {
    forall id | id in inbox.books ensures BookSound(id, inbox.books[id], inbox.byId[record.id := record]) {
      assert BookSound(id, inbox.books[id], inbox.byId);
    }
  }

  lemma SaveKeepsWellFormed(inbox: Inbox, record: Record, now: Value)
    requires WellFormed(inbox) && record.id !in inbox.byId && RecordSound(record.id, record)
    requires record.bytes <= MAX_BLUEPRINT_BYTES_PER_PLAYER
    ensures WellFormed(Saved(inbox, record, now))
  {
    var k := EvictionCount(inbox, record.bytes);
    EvictionIsMinimal(inbox, record.bytes, now);
    DropKeepsWellFormed(inbox, k, now);
    StoreKeepsWellFormed(DropOldest(inbox, k, now), record);
  }

  /** `delete` of a stored record. */
  function Deleted(inbox: Inbox, id: string, now: Value): Inbox
    requires id in inbox.byId
  {
    Inbox(Without(inbox.order, {id}), inbox.byId - {id}, inbox.bytes - inbox.byId[id].bytes,
          ForgetAll(inbox.books, {id}, now), inbox.bookOrder)
  }

  /** A stored record never weighs more than the inbox does. */
  lemma RecordFitsTotal(inbox: Inbox, id: string)
    requires WellFormed(inbox) && id in inbox.byId
    ensures inbox.byId[id].bytes <= inbox.bytes
  {
    TotalWithout(inbox.order, id, inbox.byId);
  }

  lemma DeleteKeepsWellFormed(inbox: Inbox, id: string, now: Value)
    requires WellFormed(inbox) && id in inbox.byId
    ensures WellFormed(Deleted(inbox, id, now))
    ensures 0 <= inbox.bytes - inbox.byId[id].bytes
  {
    var next := Deleted(inbox, id, now);
    WithoutElements(inbox.order, {id});
    TotalWithout(inbox.order, id, inbox.byId);
    TotalAgrees(next.order, inbox.byId, next.byId);
    ForgetAllKeepsBooks(inbox, {id}, now);
  }
}
