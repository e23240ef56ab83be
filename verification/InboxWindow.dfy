/** The inbox window: a script inventory filled from the inbox, handed to the player,
    and reconciled against the inbox when it closes. */
module InboxWindow {
  import opened Extrema
  import opened LuaValues
  import opened Inboxes
  import opened Ids
  import opened InboxStore

  const MAX_SLOTS := 120

  datatype ItemKind = BlueprintItem | BookItem | OtherItem

  datatype Stack = Stack(kind: ItemKind, caption: Option<string>)

  datatype Slot = Vacant | Holding(stack: Stack)

  /** What one stack row of the window stands for. */
  datatype Row = Row(id: string, name: string)

  /** How the engine took one rebuilt stack: not at all, or with or without its caption.
      Only a book may land unlabelled: its caption is written in a guarded call of its own. */
  datatype Delivery = Failed | Landed(labelled: bool)

  datatype Entry = Entry(count: nat, id: Option<string>)

  type Manifest = map<string, Entry>

  // -------------------------------------------------------------------------- the listing

  /** Identifiers of books and of blueprints are told apart by their prefix alone. */
  ghost predicate Namespaced(inbox: Inbox) {
    (forall id | id in inbox.byId :: !IsBookId(id)) && (forall id | id in inbox.books :: IsBookId(id))
  }

  ghost predicate Ready(inbox: Inbox) {
    WellFormed(inbox) && Namespaced(inbox)
  }

  /** Blueprints some listed book names. */
  function Hidden(bookOrder: seq<string>, books: map<string, Book>): set<string> {
    set i, m | 0 <= i < |bookOrder| && bookOrder[i] in books && m in books[bookOrder[i]].members :: m
  }

  /** The books, newest first. */
  function BookRows(bookOrder: seq<string>, books: map<string, Book>): seq<Row> {
    if bookOrder == [] then []
    else
      var id, rest := bookOrder[0], BookRows(bookOrder[1..], books);
      if id in books then rest + [Row(books[id].id, books[id].name)] else rest
  }

  /** The blueprints outside `hidden`, newest first. */
  function FlatRows(order: seq<string>, byId: map<string, Record>, hidden: set<string>): seq<Row> {
    if order == [] then []
    else
      var id, rest := order[0], FlatRows(order[1..], byId, hidden);
      if id !in hidden && id in byId then rest + [Row(byId[id].id, byId[id].name)] else rest
  }

  /** What the window shows: every book, then the blueprints no book holds. */
  function Listing(inbox: Inbox): seq<Row> {
    BookRows(inbox.bookOrder, inbox.books)
    + FlatRows(inbox.order, inbox.byId, Hidden(inbox.bookOrder, inbox.books))
  }

  /** A row names something the inbox holds, by its own identifier and name. */
  ghost predicate Shown(inbox: Inbox, row: Row) {
    || (row.id in inbox.books && row.name == inbox.books[row.id].name)
    || (row.id in inbox.byId && row.name == inbox.byId[row.id].name && row.id !in Hidden(inbox.bookOrder, inbox.books))
  }

  lemma {:induction false} BookRowsFacts(bookOrder: seq<string>, books: map<string, Book>)
    requires forall id | id in bookOrder :: id in books && books[id].id == id
    ensures var rows := BookRows(bookOrder, books);
            && |rows| == |bookOrder|
            && forall i | 0 <= i < |rows| :: rows[i] == Row(bookOrder[|rows| - 1 - i], books[bookOrder[|rows| - 1 - i]].name)
  {
    if bookOrder != [] {
      assert bookOrder[0] in bookOrder;
      BookRowsFacts(bookOrder[1..], books);
    }
  }

  ghost predicate FlatRowOf(row: Row, order: seq<string>, byId: map<string, Record>, hidden: set<string>) {
    row.id in order && row.id !in hidden && row.id in byId && row.name == byId[row.id].name
  }

  ghost predicate DistinctRows(rows: seq<Row>) {
    forall i, j | 0 <= i < j < |rows| :: rows[i].id != rows[j].id
  }

  lemma {:induction false} FlatRowsFacts(order: seq<string>, byId: map<string, Record>, hidden: set<string>)
    requires Distinct(order) && forall id | id in order :: id in byId && byId[id].id == id
    ensures var rows := FlatRows(order, byId, hidden);
            && |rows| <= |order|
            && (forall i | 0 <= i < |rows| :: FlatRowOf(rows[i], order, byId, hidden))
            && DistinctRows(rows)
  {
    if order != [] {
      assert order == [order[0]] + order[1..];
      assert order[0] !in order[1..];
      FlatRowsFacts(order[1..], byId, hidden);
      var rest := FlatRows(order[1..], byId, hidden);
      assert forall i | 0 <= i < |rest| :: FlatRowOf(rest[i], order[1..], byId, hidden);
    }
  }

  lemma {:induction false} FlatRowsCover(order: seq<string>, byId: map<string, Record>, hidden: set<string>, id: string)
    requires forall x | x in order :: x in byId && byId[x].id == x
    requires id in order && id !in hidden
    ensures Row(id, byId[id].name) in FlatRows(order, byId, hidden)
  {
    assert order == [order[0]] + order[1..];
    if id in order[1..] {
      FlatRowsCover(order[1..], byId, hidden, id);
    }
  }

  lemma ListingParts(inbox: Inbox)
    requires Ready(inbox)
    ensures var hidden := Hidden(inbox.bookOrder, inbox.books);
            var books, flat := BookRows(inbox.bookOrder, inbox.books), FlatRows(inbox.order, inbox.byId, hidden);
            && |books| <= MAX_BOOKS_PER_PLAYER && |flat| <= MAX_BLUEPRINTS_PER_PLAYER
            && DistinctRows(books) && DistinctRows(flat)
            && (forall i | 0 <= i < |books| :: books[i].id in inbox.books && books[i].name == inbox.books[books[i].id].name)
            && (forall i | 0 <= i < |flat| :: FlatRowOf(flat[i], inbox.order, inbox.byId, hidden))
  {
    forall id | id in inbox.books ensures inbox.books[id].id == id {
      assert BookSound(id, inbox.books[id], inbox.byId);
    }
    forall id | id in inbox.byId ensures inbox.byId[id].id == id {
      assert RecordSound(id, inbox.byId[id]);
    }
    BookRowsFacts(inbox.bookOrder, inbox.books);
    FlatRowsFacts(inbox.order, inbox.byId, Hidden(inbox.bookOrder, inbox.books));
  }

  /** The window never truncates, shows nothing twice, and shows only what is stored. */
  lemma ListingIsSound(inbox: Inbox)
    requires Ready(inbox)
    ensures |Listing(inbox)| <= 120 && MAX_SLOTS == 120
    ensures DistinctRows(Listing(inbox))
    ensures forall i | 0 <= i < |Listing(inbox)| :: Shown(inbox, Listing(inbox)[i])
  {
    ListingParts(inbox);
    var books := BookRows(inbox.bookOrder, inbox.books);
    var flat := FlatRows(inbox.order, inbox.byId, Hidden(inbox.bookOrder, inbox.books));
    forall i, j | 0 <= i < |books| && 0 <= j < |flat| ensures books[i].id != flat[j].id {
      assert IsBookId(books[i].id) && FlatRowOf(flat[j], inbox.order, inbox.byId, Hidden(inbox.bookOrder, inbox.books));
    }
  }

  /** Every book comes before every blueprint, newer books before older ones, newer
      blueprints before older ones. */
  ghost predicate NewestFirst(inbox: Inbox, rows: seq<Row>) {
    && (forall i, j | 0 <= i < j < |rows| :: !(rows[i].id in inbox.byId && rows[j].id in inbox.books))
    && (forall i, j | 0 <= i < j < |rows| && rows[i].id in inbox.books && rows[j].id in inbox.books ::
          Before(inbox.bookOrder, rows[j].id, rows[i].id))
    && (forall i, j | 0 <= i < j < |rows| && rows[i].id in inbox.byId && rows[j].id in inbox.byId ::
          Before(inbox.order, rows[j].id, rows[i].id))
  }

  lemma BeforeBehind(order: seq<string>, x: string, y: string)
    requires order != [] && Before(order[1..], x, y)
    ensures Before(order, x, y)
  {
    var a, b :| 0 <= a < b < |order[1..]| && order[1..][a] == x && order[1..][b] == y;
    assert order[a + 1] == x && order[b + 1] == y;
  }

  lemma {:induction false} BookRowsNewestFirst(bookOrder: seq<string>, books: map<string, Book>)
    requires forall id | id in bookOrder :: id in books && books[id].id == id
    ensures var rows := BookRows(bookOrder, books);
            forall i, j | 0 <= i < j < |rows| :: Before(bookOrder, rows[j].id, rows[i].id)
  {
    BookRowsFacts(bookOrder, books);
    var rows := BookRows(bookOrder, books);
    forall i, j | 0 <= i < j < |rows| ensures Before(bookOrder, rows[j].id, rows[i].id) {
      assert bookOrder[|rows| - 1 - j] == rows[j].id && bookOrder[|rows| - 1 - i] == rows[i].id;
    }
  }

  lemma {:induction false} FlatRowsNewestFirst(order: seq<string>, byId: map<string, Record>, hidden: set<string>)
    requires Distinct(order) && forall id | id in order :: id in byId && byId[id].id == id
    ensures var rows := FlatRows(order, byId, hidden);
            forall i, j | 0 <= i < j < |rows| :: Before(order, rows[j].id, rows[i].id)
  {
    if order != [] {
      assert order == [order[0]] + order[1..];
      FlatRowsNewestFirst(order[1..], byId, hidden);
      FlatRowsFacts(order[1..], byId, hidden);
      var rows, rest := FlatRows(order, byId, hidden), FlatRows(order[1..], byId, hidden);
      forall i, j | 0 <= i < j < |rows| ensures Before(order, rows[j].id, rows[i].id) {
        if j < |rest| {
          BeforeBehind(order, rows[j].id, rows[i].id);
        } else {
          assert FlatRowOf(rest[i], order[1..], byId, hidden) && rows[j].id == order[0];
          var b :| 0 <= b < |order[1..]| && order[1..][b] == rows[i].id;
          assert order[b + 1] == rows[i].id;
        }
      }
    }
  }

  lemma ListingIsNewestFirst(inbox: Inbox)
    requires Ready(inbox)
    ensures NewestFirst(inbox, Listing(inbox))
  {
    var hidden := Hidden(inbox.bookOrder, inbox.books);
    var books, flat := BookRows(inbox.bookOrder, inbox.books), FlatRows(inbox.order, inbox.byId, hidden);
    ListingParts(inbox);
    EntriesKeepIds(inbox);
    BookRowsNewestFirst(inbox.bookOrder, inbox.books);
    FlatRowsNewestFirst(inbox.order, inbox.byId, hidden);
    PartsNewestFirst(inbox, books, flat);
  }

  lemma EntriesKeepIds(inbox: Inbox)
    requires Ready(inbox)
    ensures forall id | id in inbox.books :: inbox.books[id].id == id
    ensures forall id | id in inbox.byId :: inbox.byId[id].id == id
  {
    forall id | id in inbox.books ensures inbox.books[id].id == id {
      assert BookSound(id, inbox.books[id], inbox.byId);
    }
  }

  lemma PartsNewestFirst(inbox: Inbox, books: seq<Row>, flat: seq<Row>)
    requires Namespaced(inbox)
    requires forall i | 0 <= i < |books| :: books[i].id in inbox.books
    requires forall i | 0 <= i < |flat| :: flat[i].id in inbox.byId
    requires forall i, j | 0 <= i < j < |books| :: Before(inbox.bookOrder, books[j].id, books[i].id)
    requires forall i, j | 0 <= i < j < |flat| :: Before(inbox.order, flat[j].id, flat[i].id)
    ensures NewestFirst(inbox, books + flat)
  {
    var rows := books + flat;
    forall i | 0 <= i < |rows| ensures rows[i].id in inbox.books <==> i < |books| {
      if i < |books| {
        assert rows[i] == books[i];
      } else {
        assert rows[i] == flat[i - |books|] && !IsBookId(rows[i].id);
      }
    }
    forall i, j | 0 <= i < j < |rows| && rows[i].id in inbox.byId && rows[j].id in inbox.byId
      ensures Before(inbox.order, rows[j].id, rows[i].id)
    {
      assert IsBookId(rows[i].id) <==> i < |books|;
      assert rows[i] == flat[i - |books|] && rows[j] == flat[j - |books|];
    }
  }

  /** Every book is shown, and every stored blueprint is shown or inside a shown book. */
  lemma ListingCoversInbox(inbox: Inbox, id: string)
    requires Ready(inbox)
    ensures id in inbox.books ==> Row(id, inbox.books[id].name) in Listing(inbox)
    ensures id in inbox.byId ==>
              || Row(id, inbox.byId[id].name) in Listing(inbox)
              || exists b :: b in inbox.books && id in inbox.books[b].members && Row(b, inbox.books[b].name) in Listing(inbox)
  {
    forall x | x in inbox.books ensures Row(x, inbox.books[x].name) in BookRows(inbox.bookOrder, inbox.books) {
      BookIsShown(inbox, x);
    }
    if id in inbox.byId && id !in Hidden(inbox.bookOrder, inbox.books) {
      forall x | x in inbox.byId ensures inbox.byId[x].id == x {
        assert RecordSound(x, inbox.byId[x]);
      }
      FlatRowsCover(inbox.order, inbox.byId, Hidden(inbox.bookOrder, inbox.books), id);
    }
  }

  lemma BookIsShown(inbox: Inbox, id: string)
    requires Ready(inbox) && id in inbox.books
    ensures Row(id, inbox.books[id].name) in BookRows(inbox.bookOrder, inbox.books)
  {
    forall x | x in inbox.books ensures inbox.books[x].id == x {
      assert BookSound(x, inbox.books[x], inbox.byId);
    }
    BookRowsFacts(inbox.bookOrder, inbox.books);
    var rows := BookRows(inbox.bookOrder, inbox.books);
    var k :| 0 <= k < |inbox.bookOrder| && inbox.bookOrder[k] == id;
    assert rows[|rows| - 1 - k] == Row(id, inbox.books[id].name);
  }

  /** Some book of the inbox names the blueprint. */
  ghost predicate InSomeBook(inbox: Inbox, id: string) {
    exists b :: b in inbox.books && id in inbox.books[b].members
  }

  lemma HiddenExactly(inbox: Inbox, id: string)
    requires Ready(inbox)
    ensures id in Hidden(inbox.bookOrder, inbox.books) <==> InSomeBook(inbox, id)
  {
    if b :| b in inbox.books && id in inbox.books[b].members {
      assert b in inbox.bookOrder;
      var i :| 0 <= i < |inbox.bookOrder| && inbox.bookOrder[i] == b;
    }
  }

  /** What the window shows: every book, and every blueprint that no book names. */
  lemma ListedExactly(inbox: Inbox, id: string)
    requires Ready(inbox)
    ensures (exists row :: row in Listing(inbox) && row.id == id) <==>
            id in inbox.books || (id in inbox.byId && !InSomeBook(inbox, id))
  {
    HiddenExactly(inbox, id);
    ListingIsSound(inbox);
    if id in inbox.books {
      BookIsShown(inbox, id);
      assert Row(id, inbox.books[id].name) in Listing(inbox);
    }
    if id in inbox.byId && !InSomeBook(inbox, id) {
      EntriesKeepIds(inbox);
      FlatRowsCover(inbox.order, inbox.byId, Hidden(inbox.bookOrder, inbox.books), id);
      assert Row(id, inbox.byId[id].name) in Listing(inbox);
    }
    if row :| row in Listing(inbox) && row.id == id {
      var i :| 0 <= i < |Listing(inbox)| && Listing(inbox)[i] == row;
      assert Shown(inbox, Listing(inbox)[i]);
    }
  }

  /** `inbox_records`. */
  method InboxRecords(inbox: PlayerInbox) returns (rows: seq<Row>)
    ensures rows == Listing(inbox.View())
    ensures Ready(inbox.View()) ==> NewestFirst(inbox.View(), rows)
  {
    var order, bookOrder, books, byId := inbox.order, inbox.bookOrder, inbox.books, inbox.byId;
    rows := [];
    var inABook: set<string> := {};
    var index := |bookOrder|;
    while index > 0
      invariant 0 <= index <= |bookOrder|
      invariant rows == BookRows(bookOrder[index..], books)
      invariant inABook == Hidden(bookOrder[index..], books)
    {
      index := index - 1;
      assert bookOrder[index..][1..] == bookOrder[index + 1..];
      HiddenStep(bookOrder, index, books);
      if bookOrder[index] in books {
        var book := books[bookOrder[index]];
        rows := rows + [Row(book.id, book.name)];
        inABook := inABook + Elements(book.members);
      }
    }
    assert bookOrder[0..] == bookOrder;
    ghost var shelf := rows;
    index := |order|;
    while index > 0
      invariant 0 <= index <= |order|
      invariant rows == shelf + FlatRows(order[index..], byId, inABook)
    {
      index := index - 1;
      assert order[index..][1..] == order[index + 1..];
      var id := order[index];
      if id !in inABook && id in byId {
        rows := rows + [Row(byId[id].id, byId[id].name)];
      }
    }
    assert order[0..] == order;
    if Ready(inbox.View()) {
      ListingIsNewestFirst(inbox.View());
    }
  }

  lemma HiddenStep(bookOrder: seq<string>, index: nat, books: map<string, Book>)
    requires index < |bookOrder|
    ensures Hidden(bookOrder[index..], books)
            == Hidden(bookOrder[index + 1..], books)
               + (if bookOrder[index] in books then Elements(books[bookOrder[index]].members) else {})
  {
    var here, later := bookOrder[index..], bookOrder[index + 1..];
    assert here == [bookOrder[index]] + later;
    forall m | m in Hidden(later, books) ensures m in Hidden(here, books) {
      var i :| 0 <= i < |later| && later[i] in books && m in books[later[i]].members;
      assert here[i + 1] == later[i];
    }
    forall m | m in Hidden(here, books) && !(bookOrder[index] in books && m in books[bookOrder[index]].members)
      ensures m in Hidden(later, books)
    {
      var i :| 0 <= i < |here| && here[i] in books && m in books[here[i]].members;
      assert here[i] == later[i - 1];
    }
    if bookOrder[index] in books {
      assert here[0] == bookOrder[index];
    }
  }

  // ------------------------------------------------------------------------- the manifest

  /** The rows whose stack really landed. */
  function Rendered(rows: seq<Row>, deliveries: seq<Delivery>): seq<Row>
    requires |deliveries| == |rows|
  {
    if rows == [] then []
    else
      var before := Rendered(rows[..|rows| - 1], deliveries[..|rows| - 1]);
      if deliveries[|rows| - 1].Landed? then before + [rows[|rows| - 1]] else before
  }

  function NameCount(rows: seq<Row>, name: string): nat {
    if rows == [] then 0 else NameCount(rows[..|rows| - 1], name) + if rows[|rows| - 1].name == name then 1 else 0
  }

  /** The manifest written for the rendered rows: how many stacks carry each name, and
      the identifier when exactly one does. */
  ghost predicate ManifestOf(rendered: seq<Row>, manifest: Manifest) {
    && (forall name :: name in manifest <==> NameCount(rendered, name) > 0)
    && (forall name | name in manifest ::
          && manifest[name].count == NameCount(rendered, name)
          && (manifest[name].id.Some? <==> manifest[name].count == 1)
          && (manifest[name].id.Some? ==> Row(manifest[name].id.value, name) in rendered))
  }

  /** Exactly one rendered row carries the name. */
  ghost predicate UniquelyRendered(rendered: seq<Row>, row: Row) {
    row in rendered && NameCount(rendered, row.name) == 1
  }

  lemma {:induction false} CountedIsThere(rows: seq<Row>, name: string)
    ensures NameCount(rows, name) > 0 <==> exists i :: 0 <= i < |rows| && rows[i].name == name
  {
    if rows != [] {
      var init := rows[..|rows| - 1];
      CountedIsThere(init, name);
      if i :| 0 <= i < |rows| && rows[i].name == name {
        if i < |init| { assert init[i].name == name; }
      }
      if NameCount(init, name) > 0 {
        var i :| 0 <= i < |init| && init[i].name == name;
        assert rows[i].name == name;
      }
      if rows[|rows| - 1].name == name {
        assert NameCount(rows, name) > 0;
      }
    }
  }

  /** A name counted once belongs to one row. */
  lemma {:induction false} OnceMeansOne(rows: seq<Row>, a: Row, b: Row)
    requires a in rows && b in rows && a.name == b.name && NameCount(rows, a.name) == 1
    ensures a == b
  {
    var init, last := rows[..|rows| - 1], rows[|rows| - 1];
    assert rows == init + [last];
    CountedIsThere(init, a.name);
    if last.name != a.name {
      OnceMeansOne(init, a, b);
    } else {
      assert forall i | 0 <= i < |init| :: init[i].name != a.name;
    }
  }

  lemma ManifestStep(rendered: seq<Row>, manifest: Manifest, row: Row)
    requires ManifestOf(rendered, manifest)
    ensures ManifestOf(rendered + [row], manifest[row.name :=
              if row.name in manifest then Entry(manifest[row.name].count + 1, None) else Entry(1, Some(row.id))])
  {
    assert (rendered + [row])[..|rendered|] == rendered;
    forall name ensures NameCount(rendered + [row], name) == NameCount(rendered, name) + if row.name == name then 1 else 0 {
    }
  }

  // -------------------------------------------------------------------------- the reclaim

  predicate Ours(stack: Stack) {
    stack.kind.BlueprintItem? || stack.kind.BookItem?
  }

  predicate Carries(slot: Slot, caption: string) {
    slot.Holding? && Ours(slot.stack) && slot.stack.caption == Some(caption)
  }

  function LabelCount(slots: seq<Slot>, caption: string): nat {
    if slots == [] then 0
    else LabelCount(slots[..|slots| - 1], caption) + if Carries(slots[|slots| - 1], caption) then 1 else 0
  }

  lemma {:induction false} LabelledIsThere(slots: seq<Slot>, caption: string)
    ensures LabelCount(slots, caption) > 0 <==> exists i :: 0 <= i < |slots| && Carries(slots[i], caption)
  {
    if slots != [] {
      var init := slots[..|slots| - 1];
      LabelledIsThere(init, caption);
      if i :| 0 <= i < |slots| && Carries(slots[i], caption) {
        if i < |init| { assert Carries(init[i], caption); }
      }
      if LabelCount(init, caption) > 0 {
        var i :| 0 <= i < |init| && Carries(init[i], caption);
        assert Carries(slots[i], caption);
      }
    }
  }

  function Found(present: map<string, nat>, caption: string): nat {
    if caption in present then present[caption] else 0
  }

  /** Each manifest caption is counted up to the number of stacks it promised. */
  ghost predicate Counted(slots: seq<Slot>, manifest: Manifest, present: map<string, nat>) {
    && present.Keys <= manifest.Keys
    && forall caption | caption in manifest :: Found(present, caption) == Min(LabelCount(slots, caption), manifest[caption].count)
  }

  /** A stack the manifest still expects when the walk reaches it: counted, not handed back. */
  predicate Expected(slots: seq<Slot>, manifest: Manifest, k: nat)
    requires k < |slots|
  {
    && slots[k].Holding? && Ours(slots[k].stack)
    && slots[k].stack.caption.Some?
    && var caption := slots[k].stack.caption.value;
       caption in manifest && LabelCount(slots[..k], caption) < manifest[caption].count
  }

  /** Every stack in the window, in slot order. */
  function Stacks(slots: seq<Slot>): seq<Stack> {
    if slots == [] then []
    else
      var last := slots[|slots| - 1];
      Stacks(slots[..|slots| - 1]) + if last.Holding? then [last.stack] else []
  }

  /** The stacks the walk recognises as the window's own, in slot order. */
  function Recognised(slots: seq<Slot>, manifest: Manifest): seq<Stack> {
    if slots == [] then []
    else
      var last := |slots| - 1;
      Recognised(slots[..last], manifest) + if Expected(slots, manifest, last) then [slots[last].stack] else []
  }

  /** The stacks the walk hands back, in slot order: all it does not recognise. */
  function Returned(slots: seq<Slot>, manifest: Manifest): seq<Stack> {
    if slots == [] then []
    else
      var last := |slots| - 1;
      Returned(slots[..last], manifest)
      + if slots[last].Holding? && !Expected(slots, manifest, last) then [slots[last].stack] else []
  }

  /** A whole walk loses nothing and invents nothing: what it hands back and what it
      recognises are together exactly what was in the window. */
  lemma {:induction false} WalkConserves(slots: seq<Slot>, manifest: Manifest)
    ensures multiset(Recognised(slots, manifest)) + multiset(Returned(slots, manifest)) == multiset(Stacks(slots))
  {
    if slots != [] {
      WalkConserves(slots[..|slots| - 1], manifest);
    }
  }

  function CaptionCount(stacks: seq<Stack>, caption: string): nat {
    if stacks == [] then 0
    else
      CaptionCount(stacks[..|stacks| - 1], caption) + if stacks[|stacks| - 1].caption == Some(caption) then 1 else 0
  }

  /** Of each caption the walk recognises as many stacks as the manifest names, if the window
      still has that many, and of any other caption none. */
  lemma {:induction false} RecognisedUpToCount(slots: seq<Slot>, manifest: Manifest, caption: string)
    ensures CaptionCount(Recognised(slots, manifest), caption)
            == if caption !in manifest then 0
               else if LabelCount(slots, caption) < manifest[caption].count then LabelCount(slots, caption)
               else manifest[caption].count
  {
    if slots != [] {
      var n := |slots| - 1;
      var before := Recognised(slots[..n], manifest);
      RecognisedUpToCount(slots[..n], manifest, caption);
      if Expected(slots, manifest, n) {
        assert Recognised(slots, manifest) == before + [slots[n].stack];
        assert (before + [slots[n].stack])[..|before|] == before;
      } else {
        assert Recognised(slots, manifest) == before;
      }
    }
  }

  /** Only blueprints and books with a caption of the manifest are ever recognised. */
  lemma {:induction false} RecognisedAreOurs(slots: seq<Slot>, manifest: Manifest)
    ensures forall stack | stack in Recognised(slots, manifest) ::
              (stack.kind == BlueprintItem || stack.kind == BookItem) && stack.caption.Some? && stack.caption.value in manifest
  {
    if slots != [] {
      RecognisedAreOurs(slots[..|slots| - 1], manifest);
    }
  }

  /** With nothing in the manifest every stack goes back. */
  lemma {:induction false} EmptyManifestReturnsAll(slots: seq<Slot>)
    ensures Returned(slots, map[]) == Stacks(slots)
  {
    if slots != [] {
      EmptyManifestReturnsAll(slots[..|slots| - 1]);
    }
  }

  lemma {:induction false} ReturnedExactly(slots: seq<Slot>, manifest: Manifest, f: nat)
    requires f <= |slots|
    ensures Returned(slots[..f], manifest) == [] <==>
            forall k | 0 <= k < f && slots[k].Holding? :: Expected(slots, manifest, k)
    decreases f
  {
    if f > 0 {
      var last := f - 1;
      ReturnedExactly(slots, manifest, last);
      assert slots[..f][..last] == slots[..last] && slots[..f][last] == slots[last];
      assert Expected(slots[..f], manifest, last) == Expected(slots, manifest, last);
    }
  }

  /** A walk that raises at slot `f` has already handed back what it did not recognise
      before `f`, yet the window keeps every stack. When the next walk goes through, the
      two together conserve the stacks if and only if nothing before `f` was foreign. */
  lemma FailedWalkDuplicates(slots: seq<Slot>, manifest: Manifest, f: nat)
    requires f <= |slots|
    ensures var handedBack := Returned(slots[..f], manifest) + Returned(slots, manifest);
            multiset(Recognised(slots, manifest)) + multiset(handedBack) == multiset(Stacks(slots))
            <==> forall k | 0 <= k < f && slots[k].Holding? :: Expected(slots, manifest, k)
  {
    var early, late := Returned(slots[..f], manifest), Returned(slots, manifest);
    WalkConserves(slots, manifest);
    ReturnedExactly(slots, manifest, f);
    assert multiset(early + late) == multiset(early) + multiset(late);
    if early != [] {
      assert early[0] in multiset(early);
      var kept, whole := multiset(Recognised(slots, manifest)), multiset(Stacks(slots));
      assert (kept + multiset(early + late))[early[0]] > whole[early[0]];
    } else {
      assert early + late == late;
    }
  }

  /** A foreign stack in the first slot, and an access that raises at the second. */
  lemma DuplicationExample()
    ensures var stack := Stack(OtherItem, None);
            var slots := [Holding(stack), Vacant];
            Stacks(slots) == [stack] && Returned(slots[..1], map[]) + Returned(slots, map[]) == [stack, stack]
  {
    var stack := Stack(OtherItem, None);
    var slots := [Holding(stack), Vacant];
    assert slots[..1] == [Holding(stack)] && slots[..1][..0] == [] && slots[..0] == [];
    EmptyManifestReturnsAll(slots);
    EmptyManifestReturnsAll(slots[..1]);
  }

  predicate WalkFails(count: nat, failsAt: Option<nat>) {
    failsAt.Some? && failsAt.value < count
  }

  /** How many slots a walk gets through. */
  function Walked(count: nat, failsAt: Option<nat>): (walked: nat)
    ensures walked <= count && (WalkFails(count, failsAt) <==> walked < count)
  {
    if WalkFails(count, failsAt) then failsAt.value else count
  }

  lemma ReturnedStep(slots: seq<Slot>, manifest: Manifest, k: nat)
    requires k < |slots|
    ensures Returned(slots[..k + 1], manifest)
            == Returned(slots[..k], manifest)
               + (if slots[k].Holding? && !Expected(slots, manifest, k) then [slots[k].stack] else [])
  {
    assert slots[..k + 1][..k] == slots[..k];
  }

  lemma CountedStep(slots: seq<Slot>, manifest: Manifest, k: nat, seen: map<string, nat>)
    requires k < |slots| && Counted(slots[..k], manifest, seen)
    ensures slots[k].Holding? && Ours(slots[k].stack) && slots[k].stack.caption.Some? ==>
              var caption := slots[k].stack.caption.value;
              (Expected(slots, manifest, k) <==> caption in manifest && Found(seen, caption) < manifest[caption].count)
    ensures Expected(slots, manifest, k) ==>
              var caption := slots[k].stack.caption.value;
              Counted(slots[..k + 1], manifest, seen[caption := Found(seen, caption) + 1])
    ensures !Expected(slots, manifest, k) ==> Counted(slots[..k + 1], manifest, seen)
  {
    assert slots[..k + 1][..k] == slots[..k];
    assert forall caption :: LabelCount(slots[..k + 1], caption)
                             == LabelCount(slots[..k], caption) + if Carries(slots[k], caption) then 1 else 0;
  }

  /** `reclaim`. `failsAt` is the slot whose engine access raises, if any. Whether or not
      the walk gets through, it has handed back exactly what it did not recognise so far. */
  method Reclaim(slots: seq<Slot>, manifest: Manifest, failsAt: Option<nat>)
    returns (present: Option<map<string, nat>>, returned: seq<Stack>)
    ensures present.None? <==> WalkFails(|slots|, failsAt)
    ensures present.Some? ==> Counted(slots, manifest, present.value)
    ensures returned == Returned(slots[..Walked(|slots|, failsAt)], manifest)
  {
    var seen: map<string, nat> := map[];
    returned := [];
    for slot := 0 to |slots|
      invariant failsAt.Some? ==> slot <= failsAt.value
      invariant Counted(slots[..slot], manifest, seen)
      invariant returned == Returned(slots[..slot], manifest)
    {
      if failsAt == Some(slot) {
        return None, returned;
      }
      CountedStep(slots, manifest, slot, seen);
      ReturnedStep(slots, manifest, slot);
      if slots[slot].Holding? {
        var stack := slots[slot].stack;
        var caption := if Ours(stack) then stack.caption else None;
        if caption.Some? && caption.value in manifest && Found(seen, caption.value) < manifest[caption.value].count {
          seen := seen[caption.value := Found(seen, caption.value) + 1];
        } else {
          returned := returned + [stack];
        }
      }
    }
    assert slots[..|slots|] == slots;
    present := Some(seen);
  }
}
