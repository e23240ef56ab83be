/** What a migration keeps of the stored lists and in which order, told by the stored table
    and the rebuilt inbox alone. */
module MigrationOrder {
  import opened LuaValues
  import opened Inboxes
  import opened KeyedLists
  import opened Layouts
  import opened Canonical
  import opened Migration

  // --------------------------------------------------------------------- first occurrences

  ghost predicate FirstAt(list: seq<Value>, i: nat, id: string) {
    i < |list| && list[i] == Str(id) && forall j | 0 <= j < i :: list[j] != Str(id)
  }

  /** The list names `x` before it names `y` for the first time. */
  ghost predicate FirstBefore(list: seq<Value>, x: string, y: string) {
    exists a: nat, b: nat :: a < b && FirstAt(list, a, x) && FirstAt(list, b, y)
  }

  /** The entries of `kept` stand in the order of their first occurrences in the list. */
  ghost predicate InFirstOrder(kept: seq<string>, list: seq<Value>) {
    forall i, j | 0 <= i < j < |kept| :: FirstBefore(list, kept[i], kept[j])
  }

  lemma FirstAtLater(list: seq<Value>, last: Value, i: nat, id: string)
    requires FirstAt(list, i, id)
    ensures FirstAt(list + [last], i, id)
  {
    assert forall j | 0 <= j < |list| :: (list + [last])[j] == list[j];
  }

  lemma FirstBeforeLater(list: seq<Value>, last: Value, x: string, y: string)
    requires FirstBefore(list, x, y)
    ensures FirstBefore(list + [last], x, y)
  {
    var a: nat, b: nat :| a < b && FirstAt(list, a, x) && FirstAt(list, b, y);
    FirstAtLater(list, last, a, x);
    FirstAtLater(list, last, b, y);
  }

  lemma {:induction false} HasFirst(list: seq<Value>, id: string) returns (i: nat)
    requires Str(id) in list
    ensures FirstAt(list, i, id)
  {
    var init, last := list[..|list| - 1], list[|list| - 1];
    assert list == init + [last];
    if Str(id) in init {
      i := HasFirst(init, id);
      FirstAtLater(init, last, i, id);
    } else {
      i := |init|;
      assert forall j | 0 <= j < i :: list[j] == init[j] && init[j] in init;
    }
  }

  /** A name new to the list comes after everything the list already names. */
  lemma NewIsLast(list: seq<Value>, x: string, id: string)
    requires Str(x) in list && Str(id) !in list
    ensures FirstBefore(list + [Str(id)], x, id)
  {
    var a := HasFirst(list, x);
    FirstAtLater(list, Str(id), a, x);
    assert forall j | 0 <= j < |list| :: (list + [Str(id)])[j] == list[j] && list[j] in list;
    assert FirstAt(list + [Str(id)], |list|, id);
  }

  lemma AppendInFirstOrder(kept: seq<string>, list: seq<Value>, id: string)
    requires InFirstOrder(kept, list) && Str(id) !in list && forall x | x in kept :: Str(x) in list
    ensures InFirstOrder(kept + [id], list + [Str(id)])
  {
    var longer := kept + [id];
    forall i, j | 0 <= i < j < |longer| ensures FirstBefore(list + [Str(id)], longer[i], longer[j]) {
      if j < |kept| {
        FirstBeforeLater(list, Str(id), kept[i], kept[j]);
      } else {
        assert kept[i] in kept;
        NewIsLast(list, kept[i], id);
      }
    }
  }

  lemma LongerListKeepsOrder(kept: seq<string>, list: seq<Value>, last: Value)
    requires InFirstOrder(kept, list)
    ensures InFirstOrder(kept, list + [last])
  {
    forall i, j | 0 <= i < j < |kept| ensures FirstBefore(list + [last], kept[i], kept[j]) {
      FirstBeforeLater(list, last, kept[i], kept[j]);
    }
  }

  lemma SublistInFirstOrder(kept: seq<string>, ids: seq<string>, list: seq<Value>)
    requires InOrderOf(kept, ids) && InFirstOrder(ids, list)
    ensures InFirstOrder(kept, list)
  {
    forall i, j | 0 <= i < j < |kept| ensures FirstBefore(list, kept[i], kept[j]) {
      assert Before(ids, kept[i], kept[j]);
      var a, b :| 0 <= a < b < |ids| && ids[a] == kept[i] && ids[b] == kept[j];
    }
  }

  lemma BeforeMeansFirst(ids: seq<string>, list: seq<Value>, x: string, y: string)
    requires InFirstOrder(ids, list) && Before(ids, x, y)
    ensures FirstBefore(list, x, y)
  {
    var a, b :| 0 <= a < b < |ids| && ids[a] == x && ids[b] == y;
  }

  lemma {:induction false} UniqueIdsInOrder(list: seq<Value>)
    ensures InFirstOrder(UniqueIds(list), list)
  {
    if list != [] {
      var init, last := list[..|list| - 1], list[|list| - 1];
      assert list == init + [last];
      UniqueIdsInOrder(init);
      if last.Str? && last.text !in UniqueIds(init) {
        AppendInFirstOrder(UniqueIds(init), init, last.text);
      } else {
        LongerListKeepsOrder(UniqueIds(init), init, last);
      }
    }
  }

  // ----------------------------------------------------------------------- the members

  /** While there is room for more, every live member is in. */
  lemma {:induction false} RoomMeansAllLive(list: seq<Value>, known: set<string>)
    requires |LiveMembers(list, known)| < MAX_BOOK_MEMBERS
    ensures forall m | Str(m) in list && m in known :: m in LiveMembers(list, known)
  {
    if list != [] {
      var init, last := list[..|list| - 1], list[|list| - 1];
      assert list == init + [last];
      RoomMeansAllLive(init, known);
    }
  }

  /** Which members a list of live candidates yields, and in which order. */
  ghost predicate FirstLive(list: seq<Value>, known: set<string>, members: seq<string>) {
    && (forall m | m in members :: m in known && Str(m) in list)
    && Distinct(members)
    && InFirstOrder(members, list)
    && |members| <= 50
    && forall m | Str(m) in list && m in known && m !in members ::
         |members| == 50 && forall k | k in members :: FirstBefore(list, k, m)
  }

  lemma {:induction false} LiveMembersAreFirst(list: seq<Value>, known: set<string>)
    ensures FirstLive(list, known, LiveMembers(list, known))
  {
    LiveMembersSound(list, known);
    if list != [] {
      var init, last := list[..|list| - 1], list[|list| - 1];
      var before := LiveMembers(init, known);
      assert list == init + [last];
      LiveMembersAreFirst(init, known);
      if |before| < MAX_BOOK_MEMBERS {
        RoomMeansAllLive(init, known);
      }
      LiveStep(init, last, known, before);
    }
  }

  lemma LiveStep(init: seq<Value>, last: Value, known: set<string>, before: seq<string>)
    requires FirstLive(init, known, before)
    requires |before| < 50 ==> forall m | Str(m) in init && m in known :: m in before
    ensures FirstLive(init + [last], known,
                      if |before| < 50 && last.Str? && last.text in known && last.text !in before then before + [last.text] else before)
  {
    var list := init + [last];
    if |before| < 50 && last.Str? && last.text in known && last.text !in before {
      AppendInFirstOrder(before, init, last.text);
      NewestIn(init, last.text, known, before);
    } else {
      LongerListKeepsOrder(before, init, last);
      forall m | Str(m) in list && m in known && m !in before ensures |before| == 50 {
      }
      forall m, k | Str(m) in list && m in known && m !in before && k in before ensures FirstBefore(list, k, m) {
        if Str(m) in init {
          FirstBeforeLater(init, last, k, m);
        } else {
          NewIsLast(init, k, m);
        }
      }
    }
  }

  lemma NewestIn(init: seq<Value>, id: string, known: set<string>, before: seq<string>)
    requires FirstLive(init, known, before) && |before| < 50 && id in known && id !in before
    requires forall m | Str(m) in init && m in known :: m in before
    requires InFirstOrder(before + [id], init + [Str(id)])
    ensures FirstLive(init + [Str(id)], known, before + [id])
  {
  }

  // ----------------------------------------------------------------------- records and books

  lemma {:induction false} CandidatesInOrder(ids: seq<string>, byId: Value, candidates: seq<Record>, encode: Encoder)
    requires Candidates(ids, byId, candidates, encode)
    ensures InOrderOf(IdsOf(candidates), ids) && forall id | id in IdsOf(candidates) :: id in ids
    ensures forall id | id in ids && id !in IdsOf(candidates) :: RecordRefused(Lookup(byId, id), encode)
  {
    if ids != [] {
      var init, id := ids[..|ids| - 1], ids[|ids| - 1];
      assert ids == init + [id];
      if RecordRefused(Lookup(byId, id), encode) && Candidates(init, byId, candidates, encode) {
        CandidatesInOrder(init, byId, candidates, encode);
        LongerInOrder(IdsOf(candidates), init, id);
      } else {
        var before, last := candidates[..|candidates| - 1], candidates[|candidates| - 1];
        CandidatesInOrder(init, byId, before, encode);
        IdsOfAppend(candidates);
        AppendInOrder(IdsOf(before), init, id);
      }
    }
  }

  lemma IdsOfAppend(candidates: seq<Record>)
    requires candidates != []
    ensures IdsOf(candidates) == IdsOf(candidates[..|candidates| - 1]) + [candidates[|candidates| - 1].id]
  {
  }

  lemma LongerInOrder(kept: seq<string>, ids: seq<string>, id: string)
    requires InOrderOf(kept, ids)
    ensures InOrderOf(kept, ids + [id])
  {
    forall i, j | 0 <= i < j < |kept| ensures Before(ids + [id], kept[i], kept[j]) {
      assert Before(ids, kept[i], kept[j]);
      var a, b :| 0 <= a < b < |ids| && ids[a] == kept[i] && ids[b] == kept[j];
      assert (ids + [id])[a] == kept[i] && (ids + [id])[b] == kept[j];
    }
  }

  lemma AppendInOrder(kept: seq<string>, ids: seq<string>, id: string)
    requires InOrderOf(kept, ids) && forall x | x in kept :: x in ids
    ensures InOrderOf(kept + [id], ids + [id])
  {
    LongerInOrder(kept, ids, id);
    var longer := kept + [id];
    forall i, j | 0 <= i < j < |longer| ensures Before(ids + [id], longer[i], longer[j]) {
      if j < |kept| {
        assert Before(ids + [id], kept[i], kept[j]);
      } else {
        assert kept[i] in ids;
        var a :| 0 <= a < |ids| && ids[a] == kept[i];
        assert (ids + [id])[a] == kept[i] && (ids + [id])[|ids|] == id;
      }
    }
  }

  /** A stored book a migration can rebuild. */
  predicate Rebuildable(source: Value) {
    source.Table? && Get(source, "name").Str? && 1 <= |Get(source, "name").text| <= 100
  }

  lemma {:induction false} BooksInOrder(ids: seq<string>, books: Value, known: set<string>)
    ensures var found := BookIdsOf(BooksFrom(ids, books, known));
            && InOrderOf(found, ids) && (forall id | id in found :: id in ids)
            && forall id | id in ids :: id in found <==> Rebuildable(Lookup(books, id))
  {
    if ids != [] {
      var init, id := ids[..|ids| - 1], ids[|ids| - 1];
      assert ids == init + [id];
      BooksInOrder(init, books, known);
      var before, book := BooksFrom(init, books, known), BookFrom(id, Lookup(books, id), known);
      if book.Some? {
        assert BookIdsOf(before + [book.value]) == BookIdsOf(before) + [id];
        AppendInOrder(BookIdsOf(before), init, id);
      } else {
        LongerInOrder(BookIdsOf(before), init, id);
      }
    }
  }

  lemma SuffixOf(order: seq<string>, k: nat)
    requires k <= |order|
    ensures InOrderOf(order[k..], order)
    ensures forall x, y | x in order[..k] && y in order[k..] :: Before(order, x, y)
  {
    forall i, j | 0 <= i < j < |order| - k ensures Before(order, order[k..][i], order[k..][j]) {
      assert order[k + i] == order[k..][i] && order[k + j] == order[k..][j];
    }
    forall x, y | x in order[..k] && y in order[k..] ensures Before(order, x, y) {
      var a :| 0 <= a < k && order[..k][a] == x;
      var b :| 0 <= b < |order| - k && order[k..][b] == y;
      assert order[a] == x && order[k + b] == y;
    }
  }

  // ------------------------------------------------------------------------- main results

  function StoredIds(stored: Value, key: string): seq<Value> {
    var list := Lookup(stored, key);
    if list.Table? then list.list else []
  }

  function StoredEntry(stored: Value, table: string, id: string): Value {
    Lookup(Lookup(stored, table), id)
  }

  /** What was dropped of the front of a list stood before all that is kept. */
  lemma SuffixInFirstOrder(all: seq<string>, k: nat, list: seq<Value>)
    requires InFirstOrder(all, list) && k <= |all|
    ensures InFirstOrder(all[k..], list)
    ensures forall id, kept | id in all && id !in all[k..] && kept in all[k..] :: FirstBefore(list, id, kept)
  {
    SuffixOf(all, k);
    SublistInFirstOrder(all[k..], all, list);
    assert all == all[..k] + all[k..];
    forall id, kept | id in all && id !in all[k..] && kept in all[k..] ensures FirstBefore(list, id, kept) {
      BeforeMeansFirst(all, list, id, kept);
    }
  }

  lemma SurvivorsInOrder(list: seq<Value>, byId: Value, candidates: seq<Record>, encode: Encoder)
    requires Candidates(UniqueIds(list), byId, candidates, encode)
    ensures InFirstOrder(IdsOf(candidates), list)
    ensures forall id | Str(id) in list && id !in IdsOf(candidates) :: RecordRefused(Lookup(byId, id), encode)
  {
    UniqueIdsInOrder(list);
    CandidatesInOrder(UniqueIds(list), byId, candidates, encode);
    SublistInFirstOrder(IdsOf(candidates), UniqueIds(list), list);
  }

  /** A migration keeps its records in the order the stored table first names them, and
      whatever it could rebuild but dropped stood in front of all it kept. */
  lemma MigratedRecordsInOrder(stored: Value, encode: Encoder, candidates: seq<Record>, inbox: Inbox)
    requires MigratedTo(stored, encode, candidates, inbox)
    ensures InFirstOrder(inbox.order, StoredIds(stored, "order"))
    ensures forall id | Str(id) in StoredIds(stored, "order") && id !in inbox.byId ::
              || GivenUp(StoredEntry(stored, "by_id", id), encode)
              || forall kept | kept in inbox.order :: FirstBefore(StoredIds(stored, "order"), id, kept)
  {
    var list := StoredIds(stored, "order");
    SurvivorsInOrder(list, Lookup(stored, "by_id"), candidates, encode);
    KeptIsSuffix(stored, encode, candidates, inbox);
    SuffixInFirstOrder(IdsOf(candidates), KeepFrom(candidates), list);
    forall id ensures RecordRefused(StoredEntry(stored, "by_id", id), encode) <==> GivenUp(StoredEntry(stored, "by_id", id), encode) {
      RefusedIsGivenUp(StoredEntry(stored, "by_id", id), encode);
    }
  }

  lemma IdsOfSuffix(candidates: seq<Record>, k: nat)
    requires k <= |candidates|
    ensures IdsOf(candidates[k..]) == IdsOf(candidates)[k..]
  {
  }

  lemma KeptIsSuffix(stored: Value, encode: Encoder, candidates: seq<Record>, inbox: Inbox)
    requires MigratedTo(stored, encode, candidates, inbox)
    ensures KeepFrom(candidates) <= |candidates| && inbox.order == IdsOf(candidates)[KeepFrom(candidates)..]
    ensures forall id :: id in inbox.byId <==> id in inbox.order
  {
    MigratedRecords(stored, encode, candidates, inbox);
    IdsOfSuffix(candidates, KeepFrom(candidates));
  }

  lemma RebuildableInOrder(list: seq<Value>, books: Value, known: set<string>)
    ensures var all := BookIdsOf(BooksFrom(UniqueIds(list), books, known));
            && InFirstOrder(all, list)
            && forall id :: id in all <==> Str(id) in list && Rebuildable(Lookup(books, id))
  {
    UniqueIdsInOrder(list);
    BooksInOrder(UniqueIds(list), books, known);
    SublistInFirstOrder(BookIdsOf(BooksFrom(UniqueIds(list), books, known)), UniqueIds(list), list);
  }

  /** It keeps the books it can rebuild, in the order the stored table first names them;
      when there are more than twenty, the last twenty. */
  lemma MigratedBooksInOrder(stored: Value, encode: Encoder, candidates: seq<Record>, inbox: Inbox)
    requires MigratedTo(stored, encode, candidates, inbox)
    ensures InFirstOrder(inbox.bookOrder, StoredIds(stored, "book_order"))
    ensures forall id :: id in inbox.books <==> id in inbox.bookOrder
    ensures forall id | id in inbox.books :: Str(id) in StoredIds(stored, "book_order") && Rebuildable(StoredEntry(stored, "books", id))
    ensures forall id | Str(id) in StoredIds(stored, "book_order") && Rebuildable(StoredEntry(stored, "books", id)) && id !in inbox.books ::
              |inbox.bookOrder| == 20 && forall kept | kept in inbox.bookOrder :: FirstBefore(StoredIds(stored, "book_order"), id, kept)
  {
    MigratedBooks(stored, encode, candidates, inbox);
    ShelfIsLastTwenty(StoredIds(stored, "book_order"), Lookup(stored, "books"), inbox.byId.Keys);
  }

  lemma ShelfIsLastTwenty(list: seq<Value>, books: Value, known: set<string>)
    ensures var order := BookIdsOf(LastBooks(BooksFrom(UniqueIds(list), books, known)));
            && InFirstOrder(order, list)
            && (forall id | id in order :: Str(id) in list && Rebuildable(Lookup(books, id)))
            && forall id | Str(id) in list && Rebuildable(Lookup(books, id)) && id !in order ::
                 |order| == 20 && forall kept | kept in order :: FirstBefore(list, id, kept)
  {
    var found := BooksFrom(UniqueIds(list), books, known);
    var k := if |found| > 20 then |found| - 20 else 0;
    var all, order := BookIdsOf(found), BookIdsOf(LastBooks(found));
    RebuildableInOrder(list, books, known);
    assert order == all[k..];
    SuffixInFirstOrder(all, k, list);
    assert all == all[..k] + all[k..];
  }

  /** Every rebuilt book has the stored name, description and ticks, and of the stored
      members the live ones, first occurrences, in order: all of them, or the first fifty. */
  lemma MigratedMembers(stored: Value, encode: Encoder, candidates: seq<Record>, inbox: Inbox, id: string)
    requires MigratedTo(stored, encode, candidates, inbox) && id in inbox.books
    ensures var source, book := StoredEntry(stored, "books", id), inbox.books[id];
            && source.Table? && Str(book.name) == Get(source, "name")
            && book.createdTick == Get(source, "created_tick") && book.updatedTick == Get(source, "updated_tick")
            && (if Get(source, "description").Str? && 1 <= |Get(source, "description").text| <= 1000
                then book.description == Some(Get(source, "description").text) else book.description == None)
            && FirstLive(StoredIds(source, "members"), inbox.byId.Keys, book.members)
  {
    var source := StoredEntry(stored, "books", id);
    BookComesFrom(stored, encode, candidates, inbox, id);
    LiveMembersAreFirst(StoredIds(source, "members"), inbox.byId.Keys);
  }

  lemma BookComesFrom(stored: Value, encode: Encoder, candidates: seq<Record>, inbox: Inbox, id: string)
    requires MigratedTo(stored, encode, candidates, inbox) && id in inbox.books
    ensures BookFrom(id, StoredEntry(stored, "books", id), inbox.byId.Keys) == Some(inbox.books[id])
  {
    var shelf := ShelfFrom(stored, inbox.byId.Keys);
    var ids := UniqueIds(StoredIds(stored, "book_order"));
    var found := BooksFrom(ids, Lookup(stored, "books"), inbox.byId.Keys);
    ShelfDistinct(stored, inbox.byId);
    MapEntry(shelf, BookKey, id);
    assert inbox.books[id] in found;
    BooksComeFrom(ids, Lookup(stored, "books"), inbox.byId.Keys, inbox.books[id]);
  }

  lemma {:induction false} BooksComeFrom(ids: seq<string>, books: Value, known: set<string>, book: Book)
    requires book in BooksFrom(ids, books, known)
    ensures BookFrom(book.id, Lookup(books, book.id), known) == Some(book)
  {
    var init, id := ids[..|ids| - 1], ids[|ids| - 1];
    if book in BooksFrom(init, books, known) {
      BooksComeFrom(init, books, known, book);
    }
  }

  function Weight(revisions: seq<Revision>, encode: Encoder): nat {
    if revisions == [] then 0
    else (if encode(revisions[0].layout).Some? then encode(revisions[0].layout).value else 0) + Weight(revisions[1..], encode)
  }

  lemma {:induction false} WeightAppend(revisions: seq<Revision>, last: Revision, encode: Encoder)
    ensures Weight(revisions + [last], encode)
            == Weight(revisions, encode) + if encode(last.layout).Some? then encode(last.layout).value else 0
  {
    if revisions == [] {
      assert [] + [last] == [last];
    } else {
      assert (revisions + [last])[1..] == revisions[1..] + [last];
      WeightAppend(revisions[1..], last, encode);
    }
  }

  lemma {:induction false} WeightIsBytes(revisions: seq<Revision>, encode: Encoder)
    ensures EncodedBytes(revisions, encode) == Weight(revisions, encode)
  {
    if revisions != [] {
      var init, last := revisions[..|revisions| - 1], revisions[|revisions| - 1];
      assert revisions == init + [last];
      WeightIsBytes(init, encode);
      WeightAppend(init, last, encode);
    }
  }

  /** A canonical layout with a legal name, one to 512 entities, and a JSON text. */
  ghost predicate Fit(canonical: Value, encode: Encoder) {
    && canonical.Table? && Get(canonical, "name").Str? && 1 <= |Get(canonical, "name").text| <= 100
    && Get(canonical, "entities").Table? && 1 <= Get(canonical, "entities").border <= 512
    && encode(canonical).Some?
  }

  /** The record has the stored ticks and, one for one, the stored revisions in canonical
      form, each fit to be kept; its name is that of the last, its size theirs together. */
  ghost predicate Contents(id: string, source: Value, record: Record, encode: Encoder) {
    && source.Table? && record.id == id
    && record.createdTick == Get(source, "created_tick") && record.updatedTick == Get(source, "updated_tick")
    && |record.revisions| == |StoredIds(source, "revisions")| >= 1
    && (forall i | 0 <= i < |record.revisions| :: SameRevision(StoredIds(source, "revisions")[i], record.revisions[i], encode))
    && Str(record.name) == Lookup(record.revisions[|record.revisions| - 1].layout, "name")
    && record.bytes == Weight(record.revisions, encode)
  }

  lemma RecordContents(id: string, source: Value, record: Record, encode: Encoder)
    requires RecordFrom(id, source, record, encode)
    ensures Contents(id, source, record, encode)
  {
    WeightIsBytes(record.revisions, encode);
    forall i | 0 <= i < |record.revisions| ensures SameRevision(Get(source, "revisions").list[i], record.revisions[i], encode) {
      assert RevisionOf(Get(source, "revisions").list[i], record.revisions[i], encode);
    }
  }

  /** Every record a migration keeps is the stored one in canonical form. */
  lemma MigratedContents(stored: Value, encode: Encoder, candidates: seq<Record>, inbox: Inbox, id: string)
    requires MigratedTo(stored, encode, candidates, inbox) && id in inbox.byId
    ensures Contents(id, StoredEntry(stored, "by_id", id), inbox.byId[id], encode)
  {
    MigratedRecords(stored, encode, candidates, inbox);
    RecordContents(id, StoredEntry(stored, "by_id", id), inbox.byId[id], encode);
  }

  ghost predicate SameRevision(source: Value, revision: Revision, encode: Encoder) {
    && source.Table? && revision.revision == Get(source, "revision")
    && LayoutOf(Get(source, "layout"), revision.layout) && Fit(revision.layout, encode)
  }

  /** What a migration gives up: an entry that is no table or has no revisions, or one of
      whose layouts cannot be read or comes out unfit. */
  ghost predicate GivenUp(source: Value, encode: Encoder) {
    || !source.Table? || !Get(source, "revisions").Table? || Get(source, "revisions").list == []
    || exists i :: 0 <= i < |Get(source, "revisions").list| && Unfit(Get(source, "revisions").list[i], encode)
  }

  ghost predicate Unfit(revision: Value, encode: Encoder) {
    || !revision.Table? || !Readable(Get(revision, "layout"))
    || exists canonical :: LayoutOf(Get(revision, "layout"), canonical) && !Fit(canonical, encode)
  }

  lemma RefusedIsGivenUp(source: Value, encode: Encoder)
    ensures RecordRefused(source, encode) <==> GivenUp(source, encode)
  {
    forall revision ensures RevisionRefused(revision, encode) <==> Unfit(revision, encode) {
      if revision.Table? && Readable(Get(revision, "layout")) {
        forall canonical ensures Storable(canonical, encode) <==> Fit(canonical, encode) {
        }
      }
    }
  }
}
