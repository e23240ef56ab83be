/** When migrating again changes nothing: the identity on settled inboxes, and the
    exact condition for idempotence on arbitrary ones. */
module MigrationLaws {
  import opened LuaValues
  import opened Canonical
  import opened Layouts
  import opened Inboxes
  import opened KeyedLists
  import opened Migration

  // ------------------------------------------------------------ the stored form of an inbox

  function StoredRevision(revision: Revision): Value {
    RecordOf(Put(map["layout" := revision.layout], "revision", revision.revision))
  }

  function StoredRevisions(revisions: seq<Revision>): seq<Value> {
    seq(|revisions|, i requires 0 <= i < |revisions| => StoredRevision(revisions[i]))
  }

  function StoredRecord(record: Record): Value {
    RecordOf(Put(Put(
      map["id" := Str(record.id), "name" := Str(record.name), "bytes" := Num(record.bytes as real),
          "revisions" := ListOf(StoredRevisions(record.revisions))],
      "created_tick", record.createdTick), "updated_tick", record.updatedTick))
  }

  function StoredBook(book: Book): Value {
    RecordOf(Put(Put(Put(
      map["id" := Str(book.id), "name" := Str(book.name), "members" := ListOf(Strs(book.members))],
      "description", if book.description.Some? then Str(book.description.value) else Nil),
      "created_tick", book.createdTick), "updated_tick", book.updatedTick))
  }

  /** The table the save file holds for an inbox, under whatever schema number. */
  function StoredForm(inbox: Inbox, schema: Value): Value {
    RecordOf(map[
      "schema_version" := schema,
      "order" := ListOf(Strs(inbox.order)),
      "by_id" := RecordOf(map id | id in inbox.byId :: StoredRecord(inbox.byId[id])),
      "bytes" := Num(inbox.bytes as real),
      "books" := RecordOf(map id | id in inbox.books :: StoredBook(inbox.books[id])),
      "book_order" := ListOf(Strs(inbox.bookOrder))])
  }

  lemma StoredFormGet(inbox: Inbox, schema: Value)
    ensures Get(StoredForm(inbox, schema), "schema_version") == schema
    ensures Get(StoredForm(inbox, schema), "order") == ListOf(Strs(inbox.order))
    ensures Get(StoredForm(inbox, schema), "by_id") == RecordOf(map id | id in inbox.byId :: StoredRecord(inbox.byId[id]))
    ensures Get(StoredForm(inbox, schema), "bytes") == Num(inbox.bytes as real)
    ensures Get(StoredForm(inbox, schema), "books") == RecordOf(map id | id in inbox.books :: StoredBook(inbox.books[id]))
    ensures Get(StoredForm(inbox, schema), "book_order") == ListOf(Strs(inbox.bookOrder))
  {
  }

  /** An inbox the library stored is rebuilt only when the schema number has moved on. */
  lemma OnlyOldSchemasMigrate(inbox: Inbox, schema: Value)
    ensures Outdated(StoredForm(inbox, schema)) <==> schema != Num(4.0)
  {
    StoredFormGet(inbox, schema);
  }

  lemma StoredRecordGet(record: Record)
    ensures Get(StoredRecord(record), "revisions") == ListOf(StoredRevisions(record.revisions))
    ensures Get(StoredRecord(record), "created_tick") == record.createdTick
    ensures Get(StoredRecord(record), "updated_tick") == record.updatedTick
  {
  }

  // ------------------------------------------------------------------------ settled records

  /** A layout the canonicaliser and the persistence ceiling leave alone. */
  ghost predicate LayoutSettled(layout: Value, encode: Encoder) {
    LayoutOf(layout, layout) && Storable(layout, encode)
  }

  ghost predicate RecordSettled(record: Record, encode: Encoder) {
    && (forall i | 0 <= i < |record.revisions| :: LayoutSettled(record.revisions[i].layout, encode))
    && record.bytes == EncodedBytes(record.revisions, encode)
  }

  ghost predicate Settled(inbox: Inbox, encode: Encoder) {
    forall id | id in inbox.byId :: RecordSettled(inbox.byId[id], encode)
  }

  lemma RevisionAgain(revision: Revision, again: Revision, encode: Encoder)
    requires LayoutSettled(revision.layout, encode) && RevisionOf(StoredRevision(revision), again, encode)
    ensures again == revision
  {
    FixedIsUnique(revision.layout, again.layout);
  }

  lemma RevisionNotRefused(revision: Revision, encode: Encoder)
    requires LayoutSettled(revision.layout, encode)
    ensures !RevisionRefused(StoredRevision(revision), encode)
  {
    forall canonical | LayoutOf(revision.layout, canonical) ensures Storable(canonical, encode) {
      FixedIsUnique(revision.layout, canonical);
    }
  }

  /** A settled record is rebuilt, and rebuilt as it was. */
  lemma RecordAgain(record: Record, again: Record, encode: Encoder)
    requires RecordSound(record.id, record) && RecordSettled(record, encode)
    requires RecordFrom(record.id, StoredRecord(record), again, encode)
    ensures again == record
  {
    StoredRecordGet(record);
    var stored := StoredRevisions(record.revisions);
    forall i | 0 <= i < |record.revisions| ensures again.revisions[i] == record.revisions[i] {
      assert RevisionOf(stored[i], again.revisions[i], encode);
      RevisionAgain(record.revisions[i], again.revisions[i], encode);
    }
    assert again.revisions == record.revisions;
  }

  lemma RecordNotRefused(record: Record, encode: Encoder)
    requires RecordSound(record.id, record) && RecordSettled(record, encode)
    ensures !RecordRefused(StoredRecord(record), encode)
  {
    StoredRecordGet(record);
    var stored := StoredRevisions(record.revisions);
    forall i | 0 <= i < |stored| ensures !RevisionRefused(stored[i], encode) {
      RevisionNotRefused(record.revisions[i], encode);
    }
  }

  // ----------------------------------------------------------------- identity on settled

  /** The stored table holds a settled record under this identifier. */
  ghost predicate HoldsSettled(stored: Value, byId: map<string, Record>, id: string, encode: Encoder) {
    && id in byId
    && Lookup(stored, id) == StoredRecord(byId[id])
    && RecordSound(id, byId[id])
    && RecordSettled(byId[id], encode)
  }

  lemma CandidateAgain(init: seq<string>, id: string, stored: Value, byId: map<string, Record>, candidates: seq<Record>, encode: Encoder)
    requires HoldsSettled(stored, byId, id, encode)
    requires Candidates(init + [id], stored, candidates, encode)
    ensures candidates != [] && candidates[|candidates| - 1] == byId[id]
    ensures Candidates(init, stored, candidates[..|candidates| - 1], encode)
  {
    assert (init + [id])[..|init|] == init;
    RecordNotRefused(byId[id], encode);
    RecordAgain(byId[id], candidates[|candidates| - 1], encode);
  }

  lemma {:induction false} CandidatesAgain(ids: seq<string>, stored: Value, byId: map<string, Record>, candidates: seq<Record>, encode: Encoder)
    requires forall id | id in ids :: HoldsSettled(stored, byId, id, encode)
    requires Candidates(ids, stored, candidates, encode)
    ensures |candidates| == |ids| && forall i | 0 <= i < |ids| :: ids[i] in byId && candidates[i] == byId[ids[i]]
  {
    if ids != [] {
      var init, id := ids[..|ids| - 1], ids[|ids| - 1];
      assert ids == init + [id];
      CandidateAgain(init, id, stored, byId, candidates, encode);
      CandidatesAgain(init, stored, byId, candidates[..|candidates| - 1], encode);
      LastMatches(init, id, byId, candidates[..|candidates| - 1]);
      SplitLast(candidates);
    }
  }

  lemma LastMatches(init: seq<string>, id: string, byId: map<string, Record>, before: seq<Record>)
    requires |before| == |init| && forall i | 0 <= i < |init| :: init[i] in byId && before[i] == byId[init[i]]
    requires id in byId
    ensures var ids, candidates := init + [id], before + [byId[id]];
            forall i | 0 <= i < |ids| :: ids[i] in byId && candidates[i] == byId[ids[i]]
  {
  }

  lemma BookAgain(id: string, book: Book, byId: map<string, Record>)
    requires BookSound(id, book, byId)
    ensures BookFrom(id, StoredBook(book), byId.Keys) == Some(book)
  {
    LiveMembersOfSound(book.members, byId.Keys);
  }

  function BooksOf(order: seq<string>, books: map<string, Book>): seq<Book>
    requires forall id | id in order :: id in books
  {
    seq(|order|, i requires 0 <= i < |order| => books[order[i]])
  }

  lemma {:induction false} BooksAgain(ids: seq<string>, stored: Value, books: map<string, Book>, byId: map<string, Record>)
    requires forall id | id in ids :: id in books && Lookup(stored, id) == StoredBook(books[id]) && BookSound(id, books[id], byId)
    ensures BooksFrom(ids, stored, byId.Keys) == BooksOf(ids, books)
  {
    if ids != [] {
      var init, id := ids[..|ids| - 1], ids[|ids| - 1];
      BookAgain(id, books[id], byId);
      BooksAgain(init, stored, books, byId);
      BooksOfLast(ids, books);
    }
  }

  lemma BooksOfLast(ids: seq<string>, books: map<string, Book>)
    requires ids != [] && forall id | id in ids :: id in books
    ensures BooksOf(ids, books) == BooksOf(ids[..|ids| - 1], books) + [books[ids[|ids| - 1]]]
  {
  }

  /** A table listed by its own keys is rebuilt from the list. */
  lemma TableAgain<T(!new)>(order: seq<string>, table: map<string, T>, items: seq<T>, key: T -> string)
    requires Lists(order, table) && |items| == |order|
    requires forall i | 0 <= i < |order| :: items[i] == table[order[i]] && key(items[i]) == order[i]
    ensures KeysOf(items, key) == order && MapOf(items, key) == table
  {
    assert KeysOf(items, key) == order;
    MapFacts(items, key);
    forall id | id in table ensures id in MapOf(items, key) && MapOf(items, key)[id] == table[id] {
      var i :| 0 <= i < |order| && order[i] == id;
      assert key(items[i]) == id;
    }
  }

  lemma RecordsAgain(inbox: Inbox, records: seq<Record>)
    requires RecordsWellFormed(inbox)
    requires |records| == |inbox.order| && forall i | 0 <= i < |records| :: records[i] == inbox.byId[inbox.order[i]]
    ensures IdsOf(records) == inbox.order && MapOf(records, RecordId) == inbox.byId && Sum(records) == inbox.bytes
    ensures Retained(records) == records
  {
    TableAgain(inbox.order, inbox.byId, records, RecordId);
    SumIsTotal(records, inbox.byId);
    assert records[0..] == records;
    assert SuffixFits(records, 0);
  }

  lemma ShelfAgain(inbox: Inbox, stored: Value)
    requires BooksWellFormed(inbox)
    requires stored == RecordOf(map id | id in inbox.books :: StoredBook(inbox.books[id]))
    ensures var books := LastBooks(BooksFrom(UniqueIds(Strs(inbox.bookOrder)), stored, inbox.byId.Keys));
            BookIdsOf(books) == inbox.bookOrder && MapOf(books, BookKey) == inbox.books
  {
    UniqueIdsOfDistinct(inbox.bookOrder);
    BooksAgain(inbox.bookOrder, stored, inbox.books, inbox.byId);
    BookTableAgain(inbox);
  }

  lemma BookTableAgain(inbox: Inbox)
    requires BooksWellFormed(inbox)
    ensures var books := BooksOf(inbox.bookOrder, inbox.books);
            LastBooks(books) == books && BookIdsOf(books) == inbox.bookOrder && MapOf(books, BookKey) == inbox.books
  {
    var books := BooksOf(inbox.bookOrder, inbox.books);
    forall i | 0 <= i < |books| ensures BookKey(books[i]) == inbox.bookOrder[i] {
      assert BookSound(inbox.bookOrder[i], books[i], inbox.byId);
    }
    TableAgain(inbox.bookOrder, inbox.books, books, BookKey);
  }

  lemma CandidatesOfSettled(inbox: Inbox, encode: Encoder, stored: Value, candidates: seq<Record>)
    requires RecordsWellFormed(inbox) && Settled(inbox, encode)
    requires stored == RecordOf(map id | id in inbox.byId :: StoredRecord(inbox.byId[id]))
    requires Candidates(UniqueIds(Strs(inbox.order)), stored, candidates, encode)
    ensures |candidates| == |inbox.order| && forall i | 0 <= i < |candidates| :: candidates[i] == inbox.byId[inbox.order[i]]
  {
    UniqueIdsOfDistinct(inbox.order);
    forall id | id in inbox.order ensures HoldsSettled(stored, inbox.byId, id, encode) {
      assert id in inbox.byId;
    }
    CandidatesAgain(inbox.order, stored, inbox.byId, candidates, encode);
  }

  /** Migrating a well-formed, settled inbox gives it back unchanged. */
  lemma MigrationIsIdentity(inbox: Inbox, schema: Value, encode: Encoder, candidates: seq<Record>, again: Inbox)
    requires WellFormed(inbox) && Settled(inbox, encode)
    requires MigratedTo(StoredForm(inbox, schema), encode, candidates, again)
    ensures again == inbox
  {
    var stored := StoredForm(inbox, schema);
    StoredFormGet(inbox, schema);
    CandidatesOfSettled(inbox, encode, Lookup(stored, "by_id"), candidates);
    RecordsAgain(inbox, candidates);
    ShelfAgain(inbox, Lookup(stored, "books"));
  }

  // ------------------------------------------------------------------- exact idempotence

  /** Some stored revision of the record has a hollow optional list. */
  ghost predicate HollowRecord(source: Value) {
    && source.Table? && Get(source, "revisions").Table?
    && exists i | 0 <= i < |Get(source, "revisions").list| ::
         && Get(source, "revisions").list[i].Table?
         && Readable(Get(Get(source, "revisions").list[i], "layout"))
         && Hollow(Get(Get(source, "revisions").list[i], "layout"))
  }

  lemma SettledLayout(source: Value, layout: Value, encode: Encoder)
    requires LayoutOf(source, layout) && Storable(layout, encode)
    ensures LayoutSettled(layout, encode) <==> !Hollow(source)
  {
    if !Hollow(source) {
      CanonicalIsFixed(source, layout);
    } else if LayoutOf(layout, layout) {
      CanonicalTwice(source, layout, layout);
    }
  }

  /** A rebuilt record is settled exactly when what it was rebuilt from has no hollow list. */
  lemma SettledRecord(id: string, source: Value, record: Record, encode: Encoder)
    requires RecordFrom(id, source, record, encode)
    ensures RecordSettled(record, encode) <==> !HollowRecord(source)
  {
    var sources := Get(source, "revisions").list;
    forall i | 0 <= i < |sources|
      ensures Readable(Get(sources[i], "layout"))
      ensures LayoutSettled(record.revisions[i].layout, encode) <==> !Hollow(Get(sources[i], "layout"))
    {
      assert RevisionOf(sources[i], record.revisions[i], encode);
      SettledLayout(Get(sources[i], "layout"), record.revisions[i].layout, encode);
    }
  }

  lemma SameRecordIsSettled(record: Record, encode: Encoder)
    requires RecordFrom(record.id, StoredRecord(record), record, encode)
    ensures RecordSettled(record, encode)
  {
    StoredRecordGet(record);
    var stored := StoredRevisions(record.revisions);
    forall i | 0 <= i < |record.revisions| ensures LayoutSettled(record.revisions[i].layout, encode) {
      assert RevisionOf(stored[i], record.revisions[i], encode);
      assert Get(stored[i], "layout") == record.revisions[i].layout;
    }
  }

  /** What a migration leaves is settled exactly when no record it kept was stored with a
      hollow list. */
  lemma MigratedIsSettled(stored: Value, encode: Encoder, candidates: seq<Record>, inbox: Inbox)
    requires MigratedTo(stored, encode, candidates, inbox)
    ensures Settled(inbox, encode) <==> forall id | id in inbox.byId :: !HollowRecord(Lookup(Lookup(stored, "by_id"), id))
  {
    MigratedRecords(stored, encode, candidates, inbox);
    forall id | id in inbox.byId
      ensures RecordSettled(inbox.byId[id], encode) <==> !HollowRecord(Lookup(Lookup(stored, "by_id"), id))
    {
      SettledRecord(id, Lookup(Lookup(stored, "by_id"), id), inbox.byId[id], encode);
    }
  }

  /** Migrating a well-formed inbox changes nothing if and only if all its records are
      settled. */
  lemma UnchangedExactly(inbox: Inbox, schema: Value, encode: Encoder, candidates: seq<Record>, again: Inbox)
    requires WellFormed(inbox)
    requires MigratedTo(StoredForm(inbox, schema), encode, candidates, again)
    ensures again == inbox <==> Settled(inbox, encode)
  {
    if Settled(inbox, encode) {
      MigrationIsIdentity(inbox, schema, encode, candidates, again);
    }
    if again == inbox {
      UnchangedIsSettled(encode, schema, inbox, candidates);
    }
  }

  /** Migrating the result of a migration changes nothing exactly when no record that
      survived the first one was stored with a hollow list. */
  lemma MigrationTwice(
      stored: Value, encode: Encoder, first: seq<Record>, once: Inbox, schema: Value, second: seq<Record>, twice: Inbox)
    requires MigratedTo(stored, encode, first, once)
    requires MigratedTo(StoredForm(once, schema), encode, second, twice)
    ensures twice == once <==> forall id | id in once.byId :: !HollowRecord(Lookup(Lookup(stored, "by_id"), id))
  {
    MigrationIsWellFormed(stored, encode, first, once);
    MigratedIsSettled(stored, encode, first, once);
    UnchangedExactly(once, schema, encode, second, twice);
  }

  lemma UnchangedIsSettled(encode: Encoder, schema: Value, inbox: Inbox, candidates: seq<Record>)
    requires WellFormed(inbox)
    requires MigratedTo(StoredForm(inbox, schema), encode, candidates, inbox)
    ensures Settled(inbox, encode)
  {
    MigratedRecords(StoredForm(inbox, schema), encode, candidates, inbox);
    StoredFormGet(inbox, schema);
    forall id | id in inbox.byId ensures RecordSettled(inbox.byId[id], encode) {
      assert Lookup(Get(StoredForm(inbox, schema), "by_id"), id) == StoredRecord(inbox.byId[id]);
      SameRecordIsSettled(inbox.byId[id], encode);
    }
  }

  /** No record a stored table lists has a hollow list. */
  ghost predicate Solid(stored: Value) {
    forall id: string | Str(id) in ListIn(Lookup(stored, "order")) :: !HollowRecord(Lookup(Lookup(stored, "by_id"), id))
  }

  lemma SolidMigratesSettled(stored: Value, encode: Encoder, candidates: seq<Record>, inbox: Inbox)
    requires MigratedTo(stored, encode, candidates, inbox) && Solid(stored)
    ensures Settled(inbox, encode)
  {
    MigrationBringsNothing(stored, encode, candidates, inbox);
    MigratedIsSettled(stored, encode, candidates, inbox);
  }

  lemma FixedIsNotHollow(layout: Value)
    requires LayoutOf(layout, layout)
    ensures !Hollow(layout)
  {
    CanonicalTwice(layout, layout, layout);
  }

  lemma StoredLayoutGet(record: Record, i: nat)
    requires i < |record.revisions|
    ensures StoredRevisions(record.revisions)[i].Table?
    ensures Get(StoredRevisions(record.revisions)[i], "layout") == record.revisions[i].layout
  {
  }

  lemma SettledIsSolid(record: Record, encode: Encoder)
    requires RecordSettled(record, encode)
    ensures !HollowRecord(StoredRecord(record))
  {
    StoredRecordGet(record);
    forall i | 0 <= i < |record.revisions| && Readable(record.revisions[i].layout)
      ensures !Hollow(record.revisions[i].layout)
    {
      FixedIsNotHollow(record.revisions[i].layout);
    }
    forall i | 0 <= i < |record.revisions|
      ensures Get(StoredRevisions(record.revisions)[i], "layout") == record.revisions[i].layout
    {
      StoredLayoutGet(record, i);
    }
  }

  /** The stored form of a settled inbox has no hollow list anywhere. */
  lemma StoredFormIsSolid(inbox: Inbox, schema: Value, encode: Encoder)
    requires RecordsWellFormed(inbox) && Settled(inbox, encode)
    ensures Solid(StoredForm(inbox, schema))
  {
    StoredFormGet(inbox, schema);
    forall id: string | Str(id) in Strs(inbox.order)
      ensures !HollowRecord(Lookup(Get(StoredForm(inbox, schema), "by_id"), id))
    {
      assert id in inbox.order;
      SettledIsSolid(inbox.byId[id], encode);
    }
  }
}
