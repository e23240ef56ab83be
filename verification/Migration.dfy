/** `migrate_inbox`: rebuilding a stored inbox of any shape, field by field, with every
    bound applied again. */
module Migration {
  import opened LuaValues
  import opened Canonical
  import opened Layouts
  import opened Inboxes
  import opened KeyedLists

  const MAX_STORED_ENTITIES := 512
  const SCHEMA_VERSION := 4

  /** The length of a value's JSON text, or none where encoding it raises. */
  type Encoder = Value -> Option<nat>

  // ------------------------------------------------------------------ one stored record

  /** A canonical layout the persistence ceiling and the encoder accept. */
  predicate Storable(canonical: Value, encode: Encoder) {
    && canonical.Table?
    && ValidString(Get(canonical, "name"), 100)
    && Get(canonical, "entities").Table?
    && 1 <= Get(canonical, "entities").border <= MAX_STORED_ENTITIES
    && encode(canonical).Some?
  }

  ghost predicate RevisionOf(source: Value, revision: Revision, encode: Encoder) {
    && source.Table?
    && LayoutOf(Get(source, "layout"), revision.layout)
    && Storable(revision.layout, encode)
    && revision.revision == Get(source, "revision")
  }

  /** `canonical_record` gives up on this revision, under some enumeration order. */
  ghost predicate RevisionRefused(source: Value, encode: Encoder) {
    || !source.Table?
    || !Readable(Get(source, "layout"))
    || exists canonical :: LayoutOf(Get(source, "layout"), canonical) && !Storable(canonical, encode)
  }

  function EncodedBytes(revisions: seq<Revision>, encode: Encoder): nat {
    if revisions == [] then 0
    else
      var last := encode(revisions[|revisions| - 1].layout);
      EncodedBytes(revisions[..|revisions| - 1], encode) + if last.Some? then last.value else 0
  }

  ghost predicate RevisionsOf(sources: seq<Value>, revisions: seq<Revision>, encode: Encoder) {
    |revisions| == |sources| && forall i | 0 <= i < |sources| :: RevisionOf(sources[i], revisions[i], encode)
  }

  ghost predicate RecordFrom(id: string, source: Value, record: Record, encode: Encoder) {
    && source.Table?
    && Get(source, "revisions").Table?
    && record.revisions != []
    && RevisionsOf(Get(source, "revisions").list, record.revisions, encode)
    && record.id == id
    && Str(record.name) == Lookup(record.revisions[|record.revisions| - 1].layout, "name")
    && record.bytes == EncodedBytes(record.revisions, encode)
    && record.createdTick == Get(source, "created_tick")
    && record.updatedTick == Get(source, "updated_tick")
  }

  ghost predicate RecordRefused(source: Value, encode: Encoder) {
    || !source.Table?
    || !Get(source, "revisions").Table?
    || Get(source, "revisions").list == []
    || exists i | 0 <= i < |Get(source, "revisions").list| :: RevisionRefused(Get(source, "revisions").list[i], encode)
  }

  /** `canonical_record`. */
  method CanonicalRecord(id: string, source: Value, encode: Encoder) returns (r: Option<Record>)
    ensures r.Some? ==> RecordFrom(id, source, r.value, encode)
    ensures r.None? ==> RecordRefused(source, encode)
  {
    if !source.Table? || !Get(source, "revisions").Table? {
      return None;
    }
    var revisions, bytes := CanonicalRevisions(Get(source, "revisions").list, encode);
    if revisions.None? || |revisions.value| == 0 {
      return None;
    }
    var last := |revisions.value| - 1;
    LatestName(Get(source, "revisions").list, revisions.value, encode);
    var latest := revisions.value[last].layout;
    r := Some(Record(id, Get(latest, "name").text, bytes, Get(source, "created_tick"), Get(source, "updated_tick"), revisions.value));
  }

  lemma LatestName(sources: seq<Value>, revisions: seq<Revision>, encode: Encoder)
    requires RevisionsOf(sources, revisions, encode) && revisions != []
    ensures var latest := revisions[|revisions| - 1].layout;
            latest.Table? && Get(latest, "name").Str? && Str(Get(latest, "name").text) == Lookup(latest, "name")
  {
    var last := |revisions| - 1;
    assert RevisionOf(sources[last], revisions[last], encode);
  }

  method CanonicalRevisions(sources: seq<Value>, encode: Encoder) returns (r: Option<seq<Revision>>, bytes: nat)
    ensures r.Some? ==> RevisionsOf(sources, r.value, encode) && bytes == EncodedBytes(r.value, encode)
    ensures r.None? ==> exists i | 0 <= i < |sources| :: RevisionRefused(sources[i], encode)
  {
    var revisions: seq<Revision> := [];
    bytes := 0;
    for i := 0 to |sources|
      invariant RevisionsOf(sources[..i], revisions, encode) && bytes == EncodedBytes(revisions, encode)
    {
      var revision := CanonicalRevision(sources[i], encode);
      if revision.None? {
        return None, 0;
      }
      EncodedAppend(revisions, revision.value, encode);
      RevisionsAppend(sources, i, revisions, revision.value, encode);
      bytes := bytes + encode(revision.value.layout).value;
      revisions := revisions + [revision.value];
    }
    assert sources[..|sources|] == sources;
    r := Some(revisions);
  }

  lemma RevisionsAppend(sources: seq<Value>, i: nat, revisions: seq<Revision>, revision: Revision, encode: Encoder)
    requires i < |sources| && RevisionsOf(sources[..i], revisions, encode) && RevisionOf(sources[i], revision, encode)
    ensures RevisionsOf(sources[..i + 1], revisions + [revision], encode)
  {
    forall j | 0 <= j < i ensures RevisionOf(sources[j], (revisions + [revision])[j], encode) {
      assert RevisionOf(sources[..i][j], revisions[j], encode);
    }
  }

  lemma EncodedAppend(revisions: seq<Revision>, revision: Revision, encode: Encoder)
    requires encode(revision.layout).Some?
    ensures EncodedBytes(revisions + [revision], encode) == EncodedBytes(revisions, encode) + encode(revision.layout).value
  {
    assert (revisions + [revision])[..|revisions|] == revisions;
  }

  method CanonicalRevision(source: Value, encode: Encoder) returns (r: Option<Revision>)
    ensures r.Some? ==> RevisionOf(source, r.value, encode)
    ensures r.None? ==> RevisionRefused(source, encode)
  {
    if !source.Table? || !Get(source, "layout").Table? {
      return None;
    }
    var canonical := CanonicalLayout(Get(source, "layout"));
    if canonical.None? || !Storable(canonical.value, encode) {
      return None;
    }
    r := Some(Revision(Get(source, "revision"), canonical.value));
  }

  // --------------------------------------------------------------------- all the records

  /** The string entries of a stored list, first occurrences only. */
  function UniqueIds(list: seq<Value>): (ids: seq<string>)
    ensures forall id :: id in ids <==> Str(id) in list
  {
    if list == [] then []
    else
      var before, last := UniqueIds(list[..|list| - 1]), list[|list| - 1];
      if last.Str? && last.text !in before then before + [last.text] else before
  }

  lemma {:induction false} UniqueIdsDistinct(list: seq<Value>)
    ensures Distinct(UniqueIds(list))
  {
    if list != [] {
      UniqueIdsDistinct(list[..|list| - 1]);
    }
  }

  lemma {:induction false} UniqueIdsOfDistinct(ids: seq<string>)
    requires Distinct(ids)
    ensures UniqueIds(Strs(ids)) == ids
  {
    if ids != [] {
      var init := ids[..|ids| - 1];
      UniqueIdsOfDistinct(init);
      assert Strs(ids)[..|ids| - 1] == Strs(init);
      assert ids == init + [ids[|ids| - 1]];
    }
  }

  /** `candidates` are the records that survive canonicalisation, in stored order. */
  ghost predicate Candidates(ids: seq<string>, byId: Value, candidates: seq<Record>, encode: Encoder) {
    if ids == [] then candidates == []
    else
      var init, id := ids[..|ids| - 1], ids[|ids| - 1];
      || (RecordRefused(Lookup(byId, id), encode) && Candidates(init, byId, candidates, encode))
      || (candidates != []
          && RecordFrom(id, Lookup(byId, id), candidates[|candidates| - 1], encode)
          && Candidates(init, byId, candidates[..|candidates| - 1], encode))
  }

  function RecordId(record: Record): string {
    record.id
  }

  function IdsOf(records: seq<Record>): seq<string> {
    KeysOf(records, RecordId)
  }

  function Sum(records: seq<Record>): nat {
    if records == [] then 0 else records[0].bytes + Sum(records[1..])
  }

  /** The record was rebuilt from the entry stored under its own identifier. */
  ghost predicate Rebuilt(ids: seq<string>, byId: Value, record: Record, encode: Encoder) {
    record.id in ids && RecordFrom(record.id, Lookup(byId, record.id), record, encode)
  }

  lemma {:induction false} CandidateSources(ids: seq<string>, byId: Value, candidates: seq<Record>, encode: Encoder)
    requires Candidates(ids, byId, candidates, encode) && Distinct(ids)
    ensures forall i | 0 <= i < |candidates| :: Rebuilt(ids, byId, candidates[i], encode)
    ensures Distinct(IdsOf(candidates))
  {
    if ids != [] {
      var init, id := ids[..|ids| - 1], ids[|ids| - 1];
      SplitLast(ids);
      PrefixDistinct(init, id);
      if RecordRefused(Lookup(byId, id), encode) && Candidates(init, byId, candidates, encode) {
        CandidateSources(init, byId, candidates, encode);
        forall i | 0 <= i < |candidates| ensures Rebuilt(ids, byId, candidates[i], encode) {
          assert Rebuilt(init, byId, candidates[i], encode);
        }
      } else {
        var before, last := candidates[..|candidates| - 1], candidates[|candidates| - 1];
        CandidateSources(init, byId, before, encode);
        CandidateAdded(init, byId, before, last, id, encode);
        SplitLast(candidates);
      }
    }
  }

  lemma SplitLast<T>(s: seq<T>)
    requires s != []
    ensures s == s[..|s| - 1] + [s[|s| - 1]]
  {
  }

  lemma CandidateAdded(init: seq<string>, byId: Value, before: seq<Record>, last: Record, id: string, encode: Encoder)
    requires forall i | 0 <= i < |before| :: Rebuilt(init, byId, before[i], encode)
    requires Distinct(IdsOf(before)) && id !in init && RecordFrom(id, Lookup(byId, id), last, encode)
    ensures forall i | 0 <= i < |before + [last]| :: Rebuilt(init + [id], byId, (before + [last])[i], encode)
    ensures Distinct(IdsOf(before + [last]))
  {
    forall i | 0 <= i < |before| ensures Rebuilt(init + [id], byId, before[i], encode) {
      assert Rebuilt(init, byId, before[i], encode);
    }
    assert last.id == id;
    forall i | 0 <= i < |before| ensures IdsOf(before)[i] != id {
      assert Rebuilt(init, byId, before[i], encode);
    }
    AppendDistinct(IdsOf(before), id);
    MapAppend(before, RecordId, last);
  }

  lemma {:induction false} SumIsTotal(records: seq<Record>, byId: map<string, Record>)
    requires forall i | 0 <= i < |records| :: records[i].id in byId && byId[records[i].id] == records[i]
    ensures Total(IdsOf(records), byId) == Sum(records)
  {
    if records != [] {
      SumIsTotal(records[1..], byId);
      assert IdsOf(records)[1..] == IdsOf(records[1..]);
    }
  }

  lemma {:induction false} SumAppend(records: seq<Record>, record: Record)
    ensures Sum(records + [record]) == Sum(records) + record.bytes
  {
    if records == [] {
      assert records + [record] == [record];
    } else {
      assert (records + [record])[1..] == records[1..] + [record];
      SumAppend(records[1..], record);
    }
  }

  /** The records from position `k` on fit both caps. */
  predicate SuffixFits(records: seq<Record>, k: nat) {
    k <= |records| && |records| - k <= MAX_BLUEPRINTS_PER_PLAYER && Sum(records[k..]) <= MAX_BLUEPRINT_BYTES_PER_PLAYER
  }

  /** Where the longest fitting suffix starts. */
  function KeepFrom(records: seq<Record>, from: nat := 0): (k: nat)
    requires from <= |records|
    ensures from <= k && SuffixFits(records, k)
    ensures forall j | from <= j < k :: !SuffixFits(records, j)
    decreases |records| - from
  {
    if SuffixFits(records, from) then from
    else if from == |records| then from
    else KeepFrom(records, from + 1)
  }

  function Retained(records: seq<Record>): seq<Record> {
    records[KeepFrom(records)..]
  }

  // --------------------------------------------------------------------------- the books

  /** Live members in stored order, first occurrences, at most the cap. */
  function LiveMembers(list: seq<Value>, known: set<string>): seq<string> {
    if list == [] then []
    else
      var before, last := LiveMembers(list[..|list| - 1], known), list[|list| - 1];
      if |before| < MAX_BOOK_MEMBERS && last.Str? && last.text in known && last.text !in before
      then before + [last.text] else before
  }

  lemma {:induction false} LiveMembersSound(list: seq<Value>, known: set<string>)
    ensures var members := LiveMembers(list, known);
            Distinct(members) && |members| <= MAX_BOOK_MEMBERS && forall m | m in members :: m in known && Str(m) in list
  {
    if list != [] {
      LiveMembersSound(list[..|list| - 1], known);
    }
  }

  lemma {:induction false} LiveMembersOfSound(members: seq<string>, known: set<string>)
    requires Distinct(members) && |members| <= MAX_BOOK_MEMBERS && forall m | m in members :: m in known
    ensures LiveMembers(Strs(members), known) == members
  {
    if members != [] {
      var init := members[..|members| - 1];
      LiveMembersOfSound(init, known);
      assert Strs(members)[..|members| - 1] == Strs(init);
      assert members == init + [members[|members| - 1]];
    }
  }

  lemma {:induction false} LiveMembersFull(list: seq<Value>, k: nat, known: set<string>)
    requires k <= |list| && |LiveMembers(list[..k], known)| >= MAX_BOOK_MEMBERS
    ensures LiveMembers(list, known) == LiveMembers(list[..k], known)
  {
    if k < |list| {
      assert list[..|list| - 1][..k] == list[..k];
      LiveMembersFull(list[..|list| - 1], k, known);
    } else {
      assert list[..k] == list;
    }
  }

  function ListIn(v: Value): seq<Value> {
    if v.Table? then v.list else []
  }

  /** `canonical_book`. */
  function BookFrom(id: string, source: Value, known: set<string>): Option<Book> {
    if !source.Table? || !ValidString(Get(source, "name"), 100) then None
    else
      var description := Get(source, "description");
      Some(Book(id, Get(source, "name").text,
                if ValidString(description, 1000) then Some(description.text) else None,
                LiveMembers(ListIn(Get(source, "members")), known),
                Get(source, "created_tick"), Get(source, "updated_tick")))
  }

  method CanonicalBook(id: string, source: Value, known: set<string>) returns (r: Option<Book>)
    ensures r == BookFrom(id, source, known)
  {
    if !source.Table? || !ValidString(Get(source, "name"), 100) {
      return None;
    }
    var list := ListIn(Get(source, "members"));
    var members: seq<string> := [];
    var i := 0;
    while i < |list|
      invariant 0 <= i <= |list|
      invariant members == LiveMembers(list[..i], known)
    {
      if |members| >= MAX_BOOK_MEMBERS {
        LiveMembersFull(list, i, known);
        break;
      }
      assert list[..i + 1][..i] == list[..i];
      if list[i].Str? && list[i].text in known && list[i].text !in members {
        members := members + [list[i].text];
      }
      i := i + 1;
    }
    if i == |list| {
      assert list[..i] == list;
    }
    var description := None;
    if ValidString(Get(source, "description"), 1000) {
      description := Some(Get(source, "description").text);
    }
    r := Some(Book(id, Get(source, "name").text, description, members, Get(source, "created_tick"), Get(source, "updated_tick")));
  }

  function BooksFrom(ids: seq<string>, books: Value, known: set<string>): seq<Book> {
    if ids == [] then []
    else
      var before, id := BooksFrom(ids[..|ids| - 1], books, known), ids[|ids| - 1];
      var book := BookFrom(id, Lookup(books, id), known);
      if book.Some? then before + [book.value] else before
  }

  function BookKey(book: Book): string {
    book.id
  }

  function BookIdsOf(books: seq<Book>): seq<string> {
    KeysOf(books, BookKey)
  }

  function LastBooks(books: seq<Book>): seq<Book> {
    if |books| > MAX_BOOKS_PER_PLAYER then books[|books| - MAX_BOOKS_PER_PLAYER..] else books
  }

  lemma {:induction false} BooksFromSound(ids: seq<string>, books: Value, byId: map<string, Record>)
    requires Distinct(ids)
    ensures var found := BooksFrom(ids, books, byId.Keys);
            && Distinct(BookIdsOf(found))
            && forall i | 0 <= i < |found| :: found[i].id in ids && BookSound(found[i].id, found[i], byId)
  {
    if ids != [] {
      var init, id := ids[..|ids| - 1], ids[|ids| - 1];
      SplitLast(ids);
      PrefixDistinct(init, id);
      BooksFromSound(init, books, byId);
      var before, book := BooksFrom(init, books, byId.Keys), BookFrom(id, Lookup(books, id), byId.Keys);
      if book.Some? {
        BookFromSound(id, Lookup(books, id), byId);
        BookAdded(init, before, id, book.value, byId);
      }
    }
  }

  lemma BookAdded(init: seq<string>, before: seq<Book>, id: string, book: Book, byId: map<string, Record>)
    requires Distinct(BookIdsOf(before)) && id !in init && BookSound(id, book, byId)
    requires forall i | 0 <= i < |before| :: before[i].id in init && BookSound(before[i].id, before[i], byId)
    ensures Distinct(BookIdsOf(before + [book]))
    ensures forall i | 0 <= i < |before + [book]| ::
              (before + [book])[i].id in init + [id] && BookSound((before + [book])[i].id, (before + [book])[i], byId)
  {
    assert forall i | 0 <= i < |before| :: BookIdsOf(before)[i] == before[i].id;
    AppendDistinct(BookIdsOf(before), id);
    MapAppend(before, BookKey, book);
  }

  lemma BookFromSound(id: string, source: Value, byId: map<string, Record>)
    requires BookFrom(id, source, byId.Keys).Some?
    ensures BookSound(id, BookFrom(id, source, byId.Keys).value, byId)
  {
    LiveMembersSound(ListIn(Get(source, "members")), byId.Keys);
  }

  // ------------------------------------------------------------------------ the migration

  /** When `player_inbox` rebuilds a stored table before using it. */
  predicate Outdated(stored: Value) {
    && stored.Table?
    && (|| Get(stored, "schema_version") != Num(SCHEMA_VERSION as real)
        || !Get(stored, "order").Table?
        || !Get(stored, "by_id").Table?
        || !Get(stored, "bytes").Num?
        || !Get(stored, "books").Table?
        || !Get(stored, "book_order").Table?)
  }

  /** The books a rebuilt table keeps, given the records it keeps. */
  function ShelfFrom(stored: Value, known: set<string>): seq<Book> {
    LastBooks(BooksFrom(UniqueIds(ListIn(Lookup(stored, "book_order"))), Lookup(stored, "books"), known))
  }

  /** The inbox rebuilt from a stored table, given the records that survived. */
  function InboxFrom(stored: Value, candidates: seq<Record>): Inbox {
    var kept := Retained(candidates);
    var byId := MapOf(kept, RecordId);
    var books := ShelfFrom(stored, byId.Keys);
    Inbox(IdsOf(kept), byId, Sum(kept), MapOf(books, BookKey), BookIdsOf(books))
  }

  /** The records of a stored table that survive canonicalisation, in order. */
  ghost predicate Survivors(stored: Value, encode: Encoder, candidates: seq<Record>) {
    Candidates(UniqueIds(ListIn(Lookup(stored, "order"))), Lookup(stored, "by_id"), candidates, encode)
  }

  /** `inbox` is what `migrate_inbox(stored)` leaves, given the records that survived. */
  ghost predicate MigratedTo(stored: Value, encode: Encoder, candidates: seq<Record>, inbox: Inbox) {
    Survivors(stored, encode, candidates) && inbox == InboxFrom(stored, candidates)
  }

  /** Whatever the stored table held, the migrated inbox is well formed. */
  lemma MigrationIsWellFormed(stored: Value, encode: Encoder, candidates: seq<Record>, inbox: Inbox)
    requires MigratedTo(stored, encode, candidates, inbox)
    ensures WellFormed(inbox)
  {
    MigratedRecords(stored, encode, candidates, inbox);
    MigratedBooks(stored, encode, candidates, inbox);
  }

  lemma SurvivorsDistinct(stored: Value, encode: Encoder, candidates: seq<Record>, inbox: Inbox)
    requires MigratedTo(stored, encode, candidates, inbox)
    ensures Distinct(IdsOf(Retained(candidates)))
    ensures forall i | 0 <= i < |Retained(candidates)| ::
              RecordFrom(Retained(candidates)[i].id, Lookup(Lookup(stored, "by_id"), Retained(candidates)[i].id), Retained(candidates)[i], encode)
  {
    UniqueIdsDistinct(ListIn(Lookup(stored, "order")));
    var ids := UniqueIds(ListIn(Lookup(stored, "order")));
    CandidateSources(ids, Lookup(stored, "by_id"), candidates, encode);
    forall i | 0 <= i < |candidates|
      ensures RecordFrom(candidates[i].id, Lookup(Lookup(stored, "by_id"), candidates[i].id), candidates[i], encode)
    {
      assert Rebuilt(ids, Lookup(stored, "by_id"), candidates[i], encode);
    }
    SuffixDistinct(candidates, RecordId, KeepFrom(candidates));
  }

  lemma KeptEntriesSound(kept: seq<Record>, byId: map<string, Record>)
    requires Distinct(IdsOf(kept)) && byId == MapOf(kept, RecordId)
    requires forall record | record in kept :: RecordSound(record.id, record)
    ensures forall id | id in byId :: RecordSound(id, byId[id])
  {
    forall id | id in byId ensures byId[id] in kept && byId[id].id == id {
      MapEntry(kept, RecordId, id);
    }
  }

  lemma KeptIsListed(kept: seq<Record>, byId: map<string, Record>)
    requires Distinct(IdsOf(kept)) && byId == MapOf(kept, RecordId)
    ensures Lists(IdsOf(kept), byId) && Total(IdsOf(kept), byId) == Sum(kept)
  {
    MapFacts(kept, RecordId);
    SumIsTotal(kept, byId);
  }

  lemma MigratedRecords(stored: Value, encode: Encoder, candidates: seq<Record>, inbox: Inbox)
    requires MigratedTo(stored, encode, candidates, inbox)
    ensures RecordsWellFormed(inbox)
    ensures forall id | id in inbox.byId :: RecordFrom(id, Lookup(Lookup(stored, "by_id"), id), inbox.byId[id], encode)
  {
    var kept, source := Retained(candidates), Lookup(stored, "by_id");
    SurvivorsDistinct(stored, encode, candidates, inbox);
    SurvivorsSound(kept, source, encode);
    KeptEntriesSound(kept, inbox.byId);
    KeptIsListed(kept, inbox.byId);
    forall id | id in inbox.byId
      ensures RecordFrom(id, Lookup(source, id), inbox.byId[id], encode)
    {
      MapEntry(kept, RecordId, id);
    }
  }

  lemma SurvivorsSound(kept: seq<Record>, source: Value, encode: Encoder)
    requires forall i | 0 <= i < |kept| :: RecordFrom(kept[i].id, Lookup(source, kept[i].id), kept[i], encode)
    ensures forall record | record in kept :: RecordSound(record.id, record)
    ensures forall record | record in kept :: RecordFrom(record.id, Lookup(source, record.id), record, encode)
  {
    forall record | record in kept ensures RecordSound(record.id, record) {
      RecordFromSound(record.id, Lookup(source, record.id), record, encode);
    }
  }

  lemma RecordFromSound(id: string, source: Value, record: Record, encode: Encoder)
    requires RecordFrom(id, source, record, encode)
    ensures RecordSound(id, record)
  {
    var last := |record.revisions| - 1;
    assert RevisionOf(Get(source, "revisions").list[last], record.revisions[last], encode);
  }

  lemma ShelfDistinct(stored: Value, byId: map<string, Record>)
    ensures var books := ShelfFrom(stored, byId.Keys);
            && Distinct(BookIdsOf(books))
            && forall i | 0 <= i < |books| :: BookSound(books[i].id, books[i], byId) && Str(books[i].id) in ListIn(Lookup(stored, "book_order"))
  {
    var ids := UniqueIds(ListIn(Lookup(stored, "book_order")));
    var found := BooksFrom(ids, Lookup(stored, "books"), byId.Keys);
    UniqueIdsDistinct(ListIn(Lookup(stored, "book_order")));
    BooksFromSound(ids, Lookup(stored, "books"), byId);
    if |found| > MAX_BOOKS_PER_PLAYER {
      SuffixDistinct(found, BookKey, |found| - MAX_BOOKS_PER_PLAYER);
    }
  }

  lemma MigratedBooks(stored: Value, encode: Encoder, candidates: seq<Record>, inbox: Inbox)
    requires MigratedTo(stored, encode, candidates, inbox)
    ensures BooksWellFormed(inbox)
  {
    ShelfDistinct(stored, inbox.byId);
    var books := ShelfFrom(stored, inbox.byId.Keys);
    MapFacts(books, BookKey);
    forall id | id in inbox.books ensures BookSound(id, inbox.books[id], inbox.byId) {
      var i :| 0 <= i < |books| && BookIdsOf(books)[i] == id;
    }
  }

  /** A migration brings no identifier the stored table did not list, in either list. */
  lemma MigrationBringsNothing(stored: Value, encode: Encoder, candidates: seq<Record>, inbox: Inbox)
    requires MigratedTo(stored, encode, candidates, inbox)
    ensures forall id | id in inbox.byId :: Str(id) in ListIn(Lookup(stored, "order"))
    ensures forall id | id in inbox.books :: Str(id) in ListIn(Lookup(stored, "book_order"))
  {
    RecordsAreListed(stored, encode, candidates);
    ShelfDistinct(stored, inbox.byId);
    var books := ShelfFrom(stored, inbox.byId.Keys);
    forall id | id in inbox.books ensures Str(id) in ListIn(Lookup(stored, "book_order")) {
      MapEntry(books, BookKey, id);
      var i :| 0 <= i < |books| && books[i] == inbox.books[id];
    }
  }

  lemma CandidatesAreListed(list: seq<Value>, byId: Value, candidates: seq<Record>, encode: Encoder)
    requires Candidates(UniqueIds(list), byId, candidates, encode)
    ensures forall record | record in candidates :: Str(record.id) in list
    ensures Distinct(IdsOf(candidates))
  {
    UniqueIdsDistinct(list);
    CandidateSources(UniqueIds(list), byId, candidates, encode);
    forall record | record in candidates ensures Str(record.id) in list {
      var i :| 0 <= i < |candidates| && candidates[i] == record;
      assert Rebuilt(UniqueIds(list), byId, candidates[i], encode);
    }
  }

  lemma RecordsAreListed(stored: Value, encode: Encoder, candidates: seq<Record>)
    requires Survivors(stored, encode, candidates)
    ensures forall id | id in MapOf(Retained(candidates), RecordId) :: Str(id) in ListIn(Lookup(stored, "order"))
  {
    CandidatesAreListed(ListIn(Lookup(stored, "order")), Lookup(stored, "by_id"), candidates, encode);
    SuffixDistinct(candidates, RecordId, KeepFrom(candidates));
    EntriesAreListed(Retained(candidates), ListIn(Lookup(stored, "order")));
  }

  lemma EntriesAreListed(kept: seq<Record>, list: seq<Value>)
    requires Distinct(IdsOf(kept)) && forall record | record in kept :: Str(record.id) in list
    ensures forall id | id in MapOf(kept, RecordId) :: Str(id) in list
  {
    forall id | id in MapOf(kept, RecordId) ensures Str(id) in list {
      MapEntry(kept, RecordId, id);
    }
  }

  /** From the `k`-th on they are at most a hundred, of at most 512 KiB together. */
  ghost predicate Allowed(records: seq<Record>, k: nat) {
    k <= |records| && |records| - k <= 100 && Sum(records[k..]) <= 524288
  }

  /** The migration keeps the longest suffix of canonicalisable records that fits both caps. */
  lemma MigrationKeepsLongestSuffix(stored: Value, encode: Encoder, candidates: seq<Record>, inbox: Inbox)
    requires MigratedTo(stored, encode, candidates, inbox)
    ensures |inbox.order| <= |candidates|
    ensures var k := |candidates| - |inbox.order|;
            && inbox.order == IdsOf(candidates)[k..]
            && Allowed(candidates, k) && forall j | 0 <= j < k :: !Allowed(candidates, j)
  {
    var k := KeepFrom(candidates);
    assert IdsOf(candidates[k..]) == IdsOf(candidates)[k..];
    forall j: nat ensures Allowed(candidates, j) <==> SuffixFits(candidates, j) {
    }
  }

  // -------------------------------------------------------------------------- the method

  lemma UniqueIdsStep(list: seq<Value>, i: nat, ids: seq<string>, seen: set<string>)
    requires i < |list| && ids == UniqueIds(list[..i]) && seen == Elements(ids)
    ensures if list[i].Str? && list[i].text !in seen
            then UniqueIds(list[..i + 1]) == ids + [list[i].text] && Elements(ids + [list[i].text]) == seen + {list[i].text}
            else UniqueIds(list[..i + 1]) == ids
  {
    assert list[..i + 1][..i] == list[..i];
    if list[i].Str? {
      assert Elements(ids + [list[i].text]) == Elements(ids) + {list[i].text};
    }
  }

  lemma CandidatesStep(ids: seq<string>, id: string, byId: Value, candidates: seq<Record>, record: Option<Record>, encode: Encoder)
    requires Candidates(ids, byId, candidates, encode)
    requires record.Some? ==> RecordFrom(id, Lookup(byId, id), record.value, encode)
    requires record.None? ==> RecordRefused(Lookup(byId, id), encode)
    ensures Candidates(ids + [id], byId, if record.Some? then candidates + [record.value] else candidates, encode)
  {
    assert (ids + [id])[..|ids|] == ids;
    if record.Some? {
      assert (candidates + [record.value])[..|candidates|] == candidates;
    }
  }

  function Extended<T>(items: seq<T>, item: Option<T>): seq<T> {
    if item.Some? then items + [item.value] else items
  }

  /** The next entry, canonicalised: a candidate, or passed over. */
  method NextCandidate(id: string, byId: Value, encode: Encoder, ghost ids: seq<string>, ghost candidates: seq<Record>)
    returns (record: Option<Record>)
    requires Candidates(ids, byId, candidates, encode)
    ensures Candidates(ids + [id], byId, Extended(candidates, record), encode)
    ensures record.Some? ==> record.value.id == id
  {
    record := CanonicalRecord(id, Lookup(byId, id), encode);
    CandidatesStep(ids, id, byId, candidates, record, encode);
  }

  /** The order, table and byte count of a list of records. */
  ghost predicate Indexed(records: seq<Record>, order: seq<string>, table: map<string, Record>, bytes: int) {
    order == IdsOf(records) && table == MapOf(records, RecordId) && bytes == Sum(records)
  }

  /** A record that survived goes to the end of the order and into the table. */
  method AppendRecord(
      id: string, record: Option<Record>, order: seq<string>, table: map<string, Record>, bytes: int, ghost records: seq<Record>)
    returns (newOrder: seq<string>, newTable: map<string, Record>, newBytes: int)
    requires Indexed(records, order, table, bytes) && (record.Some? ==> record.value.id == id)
    ensures Indexed(Extended(records, record), newOrder, newTable, newBytes)
  {
    newOrder, newTable, newBytes := order, table, bytes;
    if record.Some? {
      MapAppend(records, RecordId, record.value);
      SumAppend(records, record.value);
      newTable := table[id := record.value];
      newOrder := order + [id];
      newBytes := bytes + record.value.bytes;
    }
  }

  /** The first loop of `migrate_inbox`. */
  method CollectRecords(list: seq<Value>, byId: Value, encode: Encoder)
    returns (order: seq<string>, table: map<string, Record>, bytes: int, ghost candidates: seq<Record>)
    ensures Candidates(UniqueIds(list), byId, candidates, encode)
    ensures Indexed(candidates, order, table, bytes)
  {
    order, table, bytes, candidates := [], map[], 0, [];
    var seen: set<string> := {};
    ghost var ids: seq<string> := [];
    for i := 0 to |list|
      invariant ids == UniqueIds(list[..i]) && seen == Elements(ids)
      invariant Candidates(ids, byId, candidates, encode)
      invariant Indexed(candidates, order, table, bytes)
    {
      UniqueIdsStep(list, i, ids, seen);
      if list[i].Str? && list[i].text !in seen {
        var id := list[i].text;
        seen := seen + {id};
        var record := NextCandidate(id, byId, encode, ids, candidates);
        order, table, bytes := AppendRecord(id, record, order, table, bytes, candidates);
        ids, candidates := ids + [id], Extended(candidates, record);
      }
    }
    assert list[..|list|] == list;
  }

  ghost predicate NoneFit(records: seq<Record>, k: nat) {
    forall j | 0 <= j < k :: !SuffixFits(records, j)
  }

  lemma NoneFitStep(records: seq<Record>, k: nat)
    requires NoneFit(records, k) && !SuffixFits(records, k)
    ensures NoneFit(records, k + 1)
  {
  }

  lemma LeastSuffix(records: seq<Record>, k: nat)
    requires SuffixFits(records, k) && NoneFit(records, k)
    ensures KeepFrom(records) == k
  {
  }

  lemma SumFirst(records: seq<Record>, k: nat)
    requires k < |records|
    ensures Sum(records[k..]) == records[k].bytes + Sum(records[k + 1..])
  {
    assert records[k..][1..] == records[k + 1..];
  }

  lemma DropFirstAt(records: seq<Record>, k: nat)
    requires k < |records| && Distinct(IdsOf(records))
    ensures MapOf(records[k + 1..], RecordId) == MapOf(records[k..], RecordId) - {records[k].id}
    ensures records[k].id in MapOf(records[k..], RecordId) && MapOf(records[k..], RecordId)[records[k].id] == records[k]
  {
    SuffixDistinct(records, RecordId, k);
    MapDropFirst(records[k..], RecordId);
    MapFacts(records[k..], RecordId);
    assert records[k..][0] == records[k] && records[k..][1..] == records[k + 1..];
  }

  /** The eviction loop of `migrate_inbox` and the copy of what is retained. */
  method TrimRecords(allIds: seq<string>, all: map<string, Record>, total: nat, ghost candidates: seq<Record>)
    returns (order: seq<string>, table: map<string, Record>, bytes: int)
    requires Distinct(IdsOf(candidates))
    requires allIds == IdsOf(candidates) && all == MapOf(candidates, RecordId) && total == Sum(candidates)
    ensures order == IdsOf(Retained(candidates)) && table == MapOf(Retained(candidates), RecordId) && bytes == Sum(Retained(candidates))
  {
    order, table, bytes := allIds, all, total;
    var first := 0;
    assert candidates[0..] == candidates;
    while |order| - first > MAX_BLUEPRINTS_PER_PLAYER || bytes > MAX_BLUEPRINT_BYTES_PER_PLAYER
      invariant 0 <= first <= |candidates| && order == allIds
      invariant table == MapOf(candidates[first..], RecordId) && bytes == Sum(candidates[first..])
      invariant NoneFit(candidates, first)
      decreases |order| - first
    {
      NoneFitStep(candidates, first);
      SumFirst(candidates, first);
      DropFirstAt(candidates, first);
      var id := order[first];
      if id in table {
        bytes := if bytes - table[id].bytes < 0 then 0 else bytes - table[id].bytes;
      }
      table := table - {id};
      first := first + 1;
    }
    LeastSuffix(candidates, first);
    SuffixDistinct(candidates, RecordId, first);
    order := order[first..];
  }

  lemma BooksFromStep(ids: seq<string>, id: string, books: Value, known: set<string>)
    ensures var before, book := BooksFrom(ids, books, known), BookFrom(id, Lookup(books, id), known);
            BooksFrom(ids + [id], books, known) == if book.Some? then before + [book.value] else before
  {
    assert (ids + [id])[..|ids|] == ids;
  }

  /** The book loop of `migrate_inbox`. */
  method CollectBooks(list: seq<Value>, books: Value, known: set<string>)
    returns (order: seq<string>, table: map<string, Book>)
    ensures var found := BooksFrom(UniqueIds(list), books, known);
            order == BookIdsOf(found) && table == MapOf(found, BookKey)
  {
    order, table := [], map[];
    var seen: set<string> := {};
    ghost var ids: seq<string>, found: seq<Book> := [], [];
    for i := 0 to |list|
      invariant ids == UniqueIds(list[..i]) && seen == Elements(ids)
      invariant found == BooksFrom(ids, books, known)
      invariant order == BookIdsOf(found) && table == MapOf(found, BookKey)
    {
      UniqueIdsStep(list, i, ids, seen);
      if list[i].Str? && list[i].text !in seen {
        var id := list[i].text;
        seen := seen + {id};
        BooksFromStep(ids, id, books, known);
        var book := CanonicalBook(id, Lookup(books, id), known);
        ids := ids + [id];
        if book.Some? {
          MapAppend(found, BookKey, book.value);
          table := table[id := book.value];
          order := order + [id];
          found := found + [book.value];
        }
      }
    }
    assert list[..|list|] == list;
  }

  lemma DropFirstBook(found: seq<Book>, k: nat)
    requires k < |found| && Distinct(BookIdsOf(found))
    ensures MapOf(found[k + 1..], BookKey) == MapOf(found[k..], BookKey) - {found[k].id}
  {
    SuffixDistinct(found, BookKey, k);
    MapDropFirst(found[k..], BookKey);
    assert found[k..][0] == found[k] && found[k..][1..] == found[k + 1..];
  }

  method TrimBooks(allIds: seq<string>, all: map<string, Book>, ghost found: seq<Book>)
    returns (order: seq<string>, table: map<string, Book>)
    requires Distinct(BookIdsOf(found)) && allIds == BookIdsOf(found) && all == MapOf(found, BookKey)
    ensures order == BookIdsOf(LastBooks(found)) && table == MapOf(LastBooks(found), BookKey)
  {
    order, table := allIds, all;
    var first := 0;
    assert found[0..] == found;
    while |order| - first > MAX_BOOKS_PER_PLAYER
      invariant 0 <= first <= |found| && order == allIds
      invariant first > 0 ==> |found| - first >= MAX_BOOKS_PER_PLAYER
      invariant table == MapOf(found[first..], BookKey)
    {
      DropFirstBook(found, first);
      table := table - {order[first]};
      first := first + 1;
    }
    assert LastBooks(found) == found[first..];
    SuffixDistinct(found, BookKey, first);
    order := order[first..];
  }

  /** `migrate_inbox`. */
  method MigrateInbox(stored: Value, encode: Encoder) returns (inbox: Inbox, ghost candidates: seq<Record>)
    requires stored.Table?
    ensures MigratedTo(stored, encode, candidates, inbox)
  {
    var order, byId, bytes;
    order, byId, bytes, candidates := CollectRecords(ListIn(Get(stored, "order")), Get(stored, "by_id"), encode);
    UniqueIdsDistinct(ListIn(Get(stored, "order")));
    CandidateSources(UniqueIds(ListIn(Get(stored, "order"))), Get(stored, "by_id"), candidates, encode);
    order, byId, bytes := TrimRecords(order, byId, bytes, candidates);
    var bookOrder, books := CollectBooks(ListIn(Get(stored, "book_order")), Get(stored, "books"), byId.Keys);
    UniqueIdsDistinct(ListIn(Get(stored, "book_order")));
    BooksFromSound(UniqueIds(ListIn(Get(stored, "book_order"))), Get(stored, "books"), byId);
    bookOrder, books := TrimBooks(bookOrder, books, BooksFrom(UniqueIds(ListIn(Get(stored, "book_order"))), Get(stored, "books"), byId.Keys));
    inbox := Inbox(order, byId, bytes, books, bookOrder);
  }
}
