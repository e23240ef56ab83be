/** Filling the window and closing it: exactly which records a close deletes. */
module Reconciliation {
  import opened Extrema
  import opened LuaValues
  import opened Inboxes
  import opened Ids
  import opened InboxStore
  import opened Library
  import opened InboxWindow

  // --------------------------------------------------------------- removing a set of records

  /** The inbox without the blueprints and books named in `gone`. */
  function Purged(inbox: Inbox, gone: set<string>, now: Value): Inbox {
    Inbox(Without(inbox.order, gone), inbox.byId - gone, Total(Without(inbox.order, gone), inbox.byId),
          ForgetAll(inbox.books - gone, gone, now), Without(inbox.bookOrder, gone))
  }

  lemma PurgeAbsent(inbox: Inbox, gone: set<string>, now: Value)
    requires Ready(inbox) && gone !! inbox.byId.Keys && gone !! inbox.books.Keys
    ensures Purged(inbox, gone, now) == inbox
  {
    WithoutNothing(inbox.order, gone);
    WithoutNothing(inbox.bookOrder, gone);
    assert inbox.byId - gone == inbox.byId && inbox.books - gone == inbox.books;
    UntouchedBooks(inbox, inbox.books, gone, now);
  }

  lemma UntouchedBooks(inbox: Inbox, books: map<string, Book>, gone: set<string>, now: Value)
    requires BooksWellFormed(inbox) && gone !! inbox.byId.Keys
    requires forall id | id in books :: id in inbox.books && books[id] == inbox.books[id]
    ensures ForgetAll(books, gone, now) == books
  {
    forall id | id in books ensures !Touched(books[id], gone) {
      assert BookSound(id, inbox.books[id], inbox.byId);
    }
  }

  lemma PurgeBlueprint(inbox: Inbox, id: string, now: Value)
    requires Ready(inbox) && id in inbox.byId
    ensures Deleted(inbox, id, now) == Purged(inbox, {id}, now)
  {
    TotalWithout(inbox.order, id, inbox.byId);
    WithoutNothing(inbox.bookOrder, {id});
    assert inbox.books - {id} == inbox.books;
  }

  lemma PurgeBook(inbox: Inbox, id: string, now: Value)
    requires Ready(inbox) && id in inbox.books
    ensures BookDeleted(inbox, id) == Purged(inbox, {id}, now)
  {
    WithoutNothing(inbox.order, {id});
    assert inbox.byId - {id} == inbox.byId;
    UntouchedBooks(inbox, inbox.books - {id}, {id}, now);
  }

  lemma PurgeTwice(inbox: Inbox, a: set<string>, b: set<string>, now: Value)
    requires Lists(inbox.order, inbox.byId)
    ensures Purged(Purged(inbox, a, now), b, now) == Purged(inbox, a + b, now)
  {
    WithoutTwice(inbox.order, a, b);
    WithoutTwice(inbox.bookOrder, a, b);
    PurgeTwiceBytes(inbox, a, b);
    PurgeTwiceBooks(inbox.books, a, b, now);
    assert inbox.byId - a - b == inbox.byId - (a + b);
  }

  lemma PurgeTwiceBytes(inbox: Inbox, a: set<string>, b: set<string>)
    requires Lists(inbox.order, inbox.byId)
    ensures Total(Without(inbox.order, a + b), inbox.byId - a) == Total(Without(inbox.order, a + b), inbox.byId)
  {
    WithoutElements(inbox.order, a + b);
    TotalAgrees(Without(inbox.order, a + b), inbox.byId, inbox.byId - a);
  }

  lemma PurgeTwiceBooks(books: map<string, Book>, a: set<string>, b: set<string>, now: Value)
    ensures ForgetAll(ForgetAll(books - a, a, now) - b, b, now) == ForgetAll(books - (a + b), a + b, now)
  {
    var once := ForgetAll(books - a, a, now);
    forall id | id in once && id !in b ensures Forget(once[id], b, now) == Forget(books[id], a + b, now) {
      ForgetTwice(books[id], a, b, now);
    }
  }

  lemma PurgeNothing(inbox: Inbox, now: Value)
    requires Ready(inbox)
    ensures Purged(inbox, {}, now) == inbox
  {
    PurgeAbsent(inbox, {}, now);
  }

  lemma PurgeOneKeepsReady(inbox: Inbox, id: string, now: Value)
    requires Ready(inbox)
    ensures Ready(Purged(inbox, {id}, now))
  {
    if id in inbox.byId {
      PurgeBlueprint(inbox, id, now);
      DeleteKeepsWellFormed(inbox, id, now);
    } else if id in inbox.books {
      PurgeBook(inbox, id, now);
      BookDeleteKeepsWellFormed(inbox, id);
    } else {
      PurgeAbsent(inbox, {id}, now);
    }
  }

  /** However many records go at once, the inbox stays well formed. */
  lemma {:induction false} PurgeKeepsReady(inbox: Inbox, gone: set<string>, now: Value)
    requires Ready(inbox)
    ensures Ready(Purged(inbox, gone, now))
    decreases gone
  {
    if gone == {} {
      PurgeNothing(inbox, now);
    } else {
      var id :| id in gone;
      PurgeKeepsReady(inbox, gone - {id}, now);
      PurgeOneKeepsReady(Purged(inbox, gone - {id}, now), id, now);
      PurgeOneMore(inbox, gone, id, now);
    }
  }

  lemma PurgeOneMore(inbox: Inbox, gone: set<string>, id: string, now: Value)
    requires Lists(inbox.order, inbox.byId) && id in gone
    ensures Purged(Purged(inbox, gone - {id}, now), {id}, now) == Purged(inbox, gone, now)
  {
    PurgeTwice(inbox, gone - {id}, {id}, now);
    assert gone - {id} + {id} == gone;
  }

  // ----------------------------------------------------------------- who a close removes

  /** The window lost the one stack that stood for this name. */
  predicate CarriedOut(slots: seq<Slot>, manifest: Manifest, name: string) {
    && name in manifest
    && LabelCount(slots, name) < manifest[name].count
    && manifest[name].id.Some? && manifest[name].count == 1
  }

  function DoomedAmong(slots: seq<Slot>, manifest: Manifest, names: set<string>): set<string> {
    set name | name in names && CarriedOut(slots, manifest, name) :: manifest[name].id.value
  }

  function Doomed(slots: seq<Slot>, manifest: Manifest): set<string> {
    DoomedAmong(slots, manifest, manifest.Keys)
  }

  lemma DoomedStep(slots: seq<Slot>, manifest: Manifest, names: set<string>, name: string)
    ensures DoomedAmong(slots, manifest, names + {name})
            == DoomedAmong(slots, manifest, names) + if CarriedOut(slots, manifest, name) then {manifest[name].id.value} else {}
  {
  }

  function StackOf(row: Row, labelled: bool): Stack {
    Stack(if IsBookId(row.id) then BookItem else BlueprintItem, if labelled then Some(row.name) else None)
  }

  function SlotOf(row: Row, delivery: Delivery): Slot {
    if delivery.Failed? then Vacant else Holding(StackOf(row, delivery.labelled))
  }

  /** How the deliveries end in a window of `room` slots: past the last slot all fail. */
  function Reached(deliveries: seq<Delivery>, room: nat): (reached: seq<Delivery>)
    ensures |reached| == |deliveries|
    ensures room >= |deliveries| ==> reached == deliveries
  {
    seq(|deliveries|, i requires 0 <= i < |deliveries| => if i < room then deliveries[i] else Failed)
  }

  /** The slots of the cleared window after `resize` was tried; when it fails they stay as
      many as they were. */
  function Room(rows: seq<Row>, resized: bool, before: nat): nat {
    if resized then Max(1, Min(|rows|, MAX_SLOTS)) else before
  }

  /** The window right after a fill: the delivered stacks in the slots of their rows, the
      other slots empty. */
  ghost predicate FilledWith(rows: seq<Row>, deliveries: seq<Delivery>, slots: seq<Slot>)
    requires |deliveries| == |rows|
  {
    && (forall i | 0 <= i < |slots| :: slots[i] == if i < |rows| then SlotOf(rows[i], deliveries[i]) else Vacant)
    && (forall i | |slots| <= i < |rows| :: deliveries[i].Failed?)
  }

  /** The window in the middle of the rebuilding loop. */
  ghost predicate FilledUpTo(rows: seq<Row>, deliveries: seq<Delivery>, slots: seq<Slot>, k: nat)
    requires |deliveries| == |rows| && k <= |rows|
  {
    forall i | 0 <= i < |slots| :: slots[i] == if i < k then SlotOf(rows[i], deliveries[i]) else Vacant
  }

  function WithRow(manifest: Manifest, row: Row): Manifest {
    manifest[row.name := if row.name in manifest then Entry(manifest[row.name].count + 1, None) else Entry(1, Some(row.id))]
  }

  /** The rebuilding loop of `fill`, over a cleared window of `room` slots. */
  method Render(rows: seq<Row>, deliveries: seq<Delivery>, room: nat) returns (slots: seq<Slot>, manifest: Manifest)
    requires |deliveries| == |rows| <= MAX_SLOTS
    ensures |slots| == room && FilledWith(rows, Reached(deliveries, room), slots)
    ensures ManifestOf(Rendered(rows, Reached(deliveries, room)), manifest)
  {
    slots := seq(room, _ => Vacant);
    manifest := map[];
    ghost var reached := Reached(deliveries, room);
    for index := 0 to Min(|rows|, Max(1, Min(|rows|, MAX_SLOTS)))
      invariant |slots| == room && FilledUpTo(rows, reached, slots, index)
      invariant ManifestOf(Rendered(rows[..index], reached[..index]), manifest)
    {
      RenderedStep(rows, reached, index, manifest);
      var row := rows[index];
      if index < room && deliveries[index].Landed? {
        slots := slots[index := Holding(StackOf(row, deliveries[index].labelled))];
        manifest := WithRow(manifest, row);
      }
    }
    assert rows[..|rows|] == rows && reached[..|rows|] == reached;
  }

  class Window {
    var slots: seq<Slot>
    var manifest: Manifest

    constructor (slots: seq<Slot>)
      ensures this.slots == slots && manifest == map[]
    {
      this.slots, manifest := slots, map[];
    }

    /** `fill`. `failsAt` is where the walk raises, `resized` whether the inventory could be
        resized, `deliveries` how each rebuild ends. */
    method Fill(inbox: PlayerInbox, failsAt: Option<nat>, resized: bool, deliveries: seq<Delivery>) returns (returned: seq<Stack>)
      requires Ready(inbox.View())
      requires |deliveries| == |Listing(inbox.View())|
      modifies this
      ensures returned == Returned(old(slots)[..Walked(|old(slots)|, failsAt)], old(manifest))
      ensures WalkFails(|old(slots)|, failsAt) ==> slots == old(slots) && manifest == map[]
      ensures !WalkFails(|old(slots)|, failsAt) ==>
                && |slots| == Room(Listing(inbox.View()), resized, |old(slots)|)
                && FilledWith(Listing(inbox.View()), Reached(deliveries, |slots|), slots)
                && ManifestOf(Rendered(Listing(inbox.View()), Reached(deliveries, |slots|)), manifest)
    {
      var rows := InboxRecords(inbox);
      var present;
      present, returned := Reclaim(slots, manifest, failsAt);
      manifest := map[];
      if present.None? {
        return;
      }
      ListingIsSound(inbox.View());
      slots, manifest := Render(rows, deliveries, if resized then Max(1, Min(|rows|, MAX_SLOTS)) else |slots|);
    }

    /** `release`. Only a close the engine attributes to this window reconciles. */
    method Release(inbox: PlayerInbox, failsAt: Option<nat>, reconcile: bool, now: Value) returns (returned: seq<Stack>)
      requires Ready(inbox.View())
      modifies this, inbox
      ensures returned == Returned(old(slots)[..Walked(|old(slots)|, failsAt)], old(manifest))
      ensures WalkFails(|old(slots)|, failsAt) ==>
                slots == old(slots) && manifest == old(manifest) && inbox.View() == old(inbox.View())
      ensures !WalkFails(|old(slots)|, failsAt) ==>
                && manifest == map[] && |slots| == |old(slots)| && (forall i | 0 <= i < |slots| :: slots[i] == Vacant)
                && inbox.View() == Purged(old(inbox.View()), if reconcile then Doomed(old(slots), old(manifest)) else {}, now)
      ensures Ready(inbox.View())
    {
      var present;
      present, returned := Reclaim(slots, manifest, failsAt);
      if present.None? {
        return;
      }
      PurgeNothing(inbox.View(), now);
      if reconcile {
        ReleaseCarriedOut(inbox, present.value, now);
      }
      manifest := map[];
      slots := seq(|slots|, _ => Vacant);
    }

    /** The deletion loop of `release`, over the manifest in any order. */
    method ReleaseCarriedOut(inbox: PlayerInbox, present: map<string, nat>, now: Value)
      requires Ready(inbox.View()) && Counted(slots, manifest, present)
      modifies inbox
      ensures inbox.View() == Purged(old(inbox.View()), Doomed(slots, manifest), now) && Ready(inbox.View())
    {
      var remaining := manifest.Keys;
      ghost var before := inbox.View();
      ghost var done: set<string>, gone: set<string> := {}, {};
      PurgeNothing(before, now);
      while remaining != {}
        invariant done !! remaining && done + remaining == manifest.Keys
        invariant gone == DoomedAmong(slots, manifest, done)
        invariant inbox.View() == Purged(before, gone, now) && Ready(inbox.View())
        decreases remaining
      {
        var name :| name in remaining;
        DoomedStep(slots, manifest, done, name);
        var entry := manifest[name];
        if Found(present, name) < entry.count {
          if entry.id.Some? && entry.count == 1 {
            PurgeTwice(before, gone, {entry.id.value}, now);
            RemoveOne(inbox, entry.id.value, now);
            gone := gone + {entry.id.value};
          }
        }
        remaining, done := remaining - {name}, done + {name};
      }
    }
  }

  /** One deletion of a close: the identifier's prefix says which kind it is. */
  method RemoveOne(inbox: PlayerInbox, id: string, now: Value)
    requires Ready(inbox.View())
    modifies inbox
    ensures inbox.View() == Purged(old(inbox.View()), {id}, now) && Ready(inbox.View())
  {
    PurgeOneKeepsReady(inbox.View(), id, now);
    if IsBookId(id) {
      if id in inbox.books { PurgeBook(inbox.View(), id, now); } else { PurgeAbsent(inbox.View(), {id}, now); }
      var deleted := inbox.DeleteBook(id);
    } else {
      if id in inbox.byId { PurgeBlueprint(inbox.View(), id, now); } else { PurgeAbsent(inbox.View(), {id}, now); }
      var deleted := inbox.Delete(id, now);
    }
  }

  /** One round of the rebuilding loop. */
  lemma RenderedStep(rows: seq<Row>, deliveries: seq<Delivery>, k: nat, manifest: Manifest)
    requires |deliveries| == |rows| && k < |rows| && ManifestOf(Rendered(rows[..k], deliveries[..k]), manifest)
    ensures ManifestOf(Rendered(rows[..k + 1], deliveries[..k + 1]),
                       if deliveries[k].Landed? then WithRow(manifest, rows[k]) else manifest)
  {
    assert rows[..k + 1][..k] == rows[..k] && deliveries[..k + 1][..k] == deliveries[..k];
    ManifestStep(Rendered(rows[..k], deliveries[..k]), manifest, rows[k]);
  }

  // ------------------------------------------------------------------------ main results

  lemma {:induction false} RenderedRows(rows: seq<Row>, deliveries: seq<Delivery>, row: Row)
    requires |deliveries| == |rows|
    ensures row in Rendered(rows, deliveries) <==> exists i :: 0 <= i < |rows| && rows[i] == row && deliveries[i].Landed?
  {
    if rows != [] {
      var n := |rows| - 1;
      RenderedRows(rows[..n], deliveries[..n], row);
      if i :| 0 <= i < |rows| && rows[i] == row && deliveries[i].Landed? {
        if i < n { assert rows[..n][i] == row && deliveries[..n][i].Landed?; }
      }
      if row in Rendered(rows[..n], deliveries[..n]) {
        var i :| 0 <= i < n && rows[..n][i] == row && deliveries[..n][i].Landed?;
        assert rows[i] == row && deliveries[i].Landed?;
      }
    }
  }

  /** What a filled slot holds: a book for a stored book, a blueprint for a stored blueprint,
      captioned with the stored name unless the engine refused the caption. */
  lemma FilledSlots(inbox: Inbox, deliveries: seq<Delivery>, slots: seq<Slot>, i: nat)
    requires Ready(inbox) && |deliveries| == |Listing(inbox)| && FilledWith(Listing(inbox), deliveries, slots) && i < |slots|
    ensures slots[i].Holding? <==> i < |deliveries| && deliveries[i] != Failed
    ensures slots[i].Holding? ==>
              var id, stack := Listing(inbox)[i].id, slots[i].stack;
              && (id in inbox.books || id in inbox.byId)
              && (id in inbox.books ==> stack.kind == BookItem && stack.caption in {None, Some(inbox.books[id].name)})
              && (id in inbox.byId ==> stack.kind == BlueprintItem && stack.caption in {None, Some(inbox.byId[id].name)})
              && (stack.caption == None <==> deliveries[i] == Landed(false))
  {
    ListingIsSound(inbox);
    if i < |Listing(inbox)| {
      assert Shown(inbox, Listing(inbox)[i]);
    }
  }

  /** A stack of the window's own kinds that carries the name is still there. */
  ghost predicate StillThere(slots: seq<Slot>, name: string) {
    exists i :: 0 <= i < |slots| && Carries(slots[i], name)
  }

  /** Whatever the player and the tools did in between, a reconciling close removes
      exactly the records this fill rendered, alone under their name, of which no
      blueprint or book stack with that name is left. */
  lemma CloseRemovesExactly(rendered: seq<Row>, manifest: Manifest, slots: seq<Slot>, id: string)
    requires ManifestOf(rendered, manifest)
    ensures id in Doomed(slots, manifest) <==>
            exists row :: UniquelyRendered(rendered, row) && row.id == id && !StillThere(slots, row.name)
  {
    if id in Doomed(slots, manifest) {
      var name :| name in manifest && CarriedOut(slots, manifest, name) && manifest[name].id.value == id;
      LabelledIsThere(slots, name);
      assert UniquelyRendered(rendered, Row(id, name));
    }
    if row :| UniquelyRendered(rendered, row) && row.id == id && !StillThere(slots, row.name) {
      LabelledIsThere(slots, row.name);
      OnceMeansOne(rendered, row, Row(manifest[row.name].id.value, row.name));
      assert CarriedOut(slots, manifest, row.name);
    }
  }

  /** A blueprint hidden in a book when the window was filled is never removed by the close. */
  lemma HiddenMembersSurvive(atFill: Inbox, deliveries: seq<Delivery>, manifest: Manifest, slots: seq<Slot>, id: string)
    requires Ready(atFill) && |deliveries| == |Listing(atFill)|
    requires ManifestOf(Rendered(Listing(atFill), deliveries), manifest)
    requires InSomeBook(atFill, id)
    ensures id !in Doomed(slots, manifest)
  {
    HiddenExactly(atFill, id);
    var rendered := Rendered(Listing(atFill), deliveries);
    ListingIsSound(atFill);
    forall row | row in rendered ensures row.id != id {
      RenderedRows(Listing(atFill), deliveries, row);
      var i :| 0 <= i < |Listing(atFill)| && Listing(atFill)[i] == row;
      assert Shown(atFill, Listing(atFill)[i]);
      HiddenAreBlueprints(atFill, id);
    }
    CloseRemovesExactly(rendered, manifest, slots, id);
  }

  lemma HiddenAreBlueprints(inbox: Inbox, id: string)
    requires Ready(inbox) && id in Hidden(inbox.bookOrder, inbox.books)
    ensures id in inbox.byId && id !in inbox.books
  {
    var i :| 0 <= i < |inbox.bookOrder| && inbox.bookOrder[i] in inbox.books && id in inbox.books[inbox.bookOrder[i]].members;
    assert BookSound(inbox.bookOrder[i], inbox.books[inbox.bookOrder[i]], inbox.byId);
  }

  /** What a close straight after the fill removes: exactly the rows whose stack landed
      without its label and whose name no other rendered row carries. */
  lemma FillThenClose(atFill: Inbox, deliveries: seq<Delivery>, manifest: Manifest, slots: seq<Slot>, id: string)
    requires Ready(atFill) && |deliveries| == |Listing(atFill)|
    requires ManifestOf(Rendered(Listing(atFill), deliveries), manifest)
    requires FilledWith(Listing(atFill), deliveries, slots)
    ensures id in Doomed(slots, manifest) <==>
            exists i :: 0 <= i < |Listing(atFill)| && Listing(atFill)[i].id == id && deliveries[i] == Landed(false)
                        && NameCount(Rendered(Listing(atFill), deliveries), Listing(atFill)[i].name) == 1
  {
    ListingIsSound(atFill);
    FillThenCloseRows(Listing(atFill), deliveries, manifest, slots, id);
  }

  lemma FillThenCloseRows(rows: seq<Row>, deliveries: seq<Delivery>, manifest: Manifest, slots: seq<Slot>, id: string)
    requires |deliveries| == |rows| && DistinctRows(rows)
    requires ManifestOf(Rendered(rows, deliveries), manifest)
    requires FilledWith(rows, deliveries, slots)
    ensures id in Doomed(slots, manifest) <==>
            exists i :: 0 <= i < |rows| && rows[i].id == id && deliveries[i] == Landed(false)
                        && NameCount(Rendered(rows, deliveries), rows[i].name) == 1
  {
    var rendered := Rendered(rows, deliveries);
    CloseRemovesExactly(rendered, manifest, slots, id);
    if row :| UniquelyRendered(rendered, row) && row.id == id && !StillThere(slots, row.name) {
      RenderedRows(rows, deliveries, row);
      var i :| 0 <= i < |rows| && rows[i] == row && deliveries[i].Landed?;
      assert !Carries(slots[i], row.name);
    }
    if i :| 0 <= i < |rows| && rows[i].id == id && deliveries[i] == Landed(false) && NameCount(rendered, rows[i].name) == 1 {
      RenderedRows(rows, deliveries, rows[i]);
      OnlyItself(rows, deliveries, slots, i);
    }
  }

  lemma OnlyItself(rows: seq<Row>, deliveries: seq<Delivery>, slots: seq<Slot>, i: nat)
    requires |deliveries| == |rows| && FilledWith(rows, deliveries, slots) && i < |rows|
    requires rows[i] in Rendered(rows, deliveries) && NameCount(Rendered(rows, deliveries), rows[i].name) == 1
    requires DistinctRows(rows) && deliveries[i] == Landed(false)
    ensures !StillThere(slots, rows[i].name)
  {
    if j :| 0 <= j < |slots| && Carries(slots[j], rows[i].name) {
      RenderedRows(rows, deliveries, rows[j]);
      OnceMeansOne(Rendered(rows, deliveries), rows[i], rows[j]);
    }
  }

  function OneBook(id: string, book: Book): Inbox {
    Inbox([], map[], 0, map[id := book], [id])
  }

  lemma OneBookListing(id: string, book: Book)
    requires IsBookId(id) && book.id == id && 0 < |book.name| <= 100 && book.description == None && book.members == []
    ensures Ready(OneBook(id, book)) && Listing(OneBook(id, book)) == [Row(id, book.name)]
  {
    var books := map[id := book];
    assert [id][1..] == [] && BookRows([], books) == [] && BookRows([id], books) == [Row(id, book.name)];
  }

  lemma OneRowRendered(row: Row, labelled: bool)
    ensures Rendered([row], [Landed(labelled)]) == [row]
    ensures forall name :: NameCount([row], name) == if name == row.name then 1 else 0
  {
    assert [row][..0] == [] && [Landed(labelled)][..0] == [];
    forall name ensures NameCount([row], name) == if name == row.name then 1 else 0 {
      assert NameCount([row], name) == NameCount([row][..0], name) + if row.name == name then 1 else 0;
    }
  }

  lemma OneRowManifest(row: Row)
    ensures ManifestOf([row], map[row.name := Entry(1, Some(row.id))])
  {
    OneRowRendered(row, true);
  }

  /** One book in an otherwise empty inbox, whose label the engine refuses: the close that
      follows the fill at once removes it. */
  lemma UnlabelledBookIsLost(id: string, book: Book, now: Value)
    requires IsBookId(id) && book.id == id && 0 < |book.name| <= 100 && book.description == None && book.members == []
    ensures var inbox, slots := OneBook(id, book), [Holding(Stack(BookItem, None))];
            var manifest := map[book.name := Entry(1, Some(id))];
            && Ready(inbox) && Listing(inbox) == [Row(id, book.name)]
            && ManifestOf(Rendered(Listing(inbox), [Landed(false)]), manifest)
            && FilledWith(Listing(inbox), [Landed(false)], slots)
            && id in Doomed(slots, manifest)
            && id !in Purged(inbox, Doomed(slots, manifest), now).books
  {
    var row, slots := Row(id, book.name), [Holding(Stack(BookItem, None))];
    OneBookListing(id, book);
    OneRowRendered(row, false);
    OneRowManifest(row);
    FillThenCloseRows([row], [Landed(false)], map[book.name := Entry(1, Some(id))], slots, id);
    assert [row][0].id == id && [Landed(false)][0] == Landed(false);
  }

  /** When every stack landed with its label, opening and closing the window changes nothing. */
  lemma OpenCloseChangesNothing(atFill: Inbox, deliveries: seq<Delivery>, manifest: Manifest, slots: seq<Slot>, now: Value)
    requires Ready(atFill) && |deliveries| == |Listing(atFill)|
    requires ManifestOf(Rendered(Listing(atFill), deliveries), manifest)
    requires FilledWith(Listing(atFill), deliveries, slots)
    requires forall i | 0 <= i < |deliveries| :: deliveries[i] != Landed(false)
    ensures Purged(atFill, Doomed(slots, manifest), now) == atFill
  {
    forall id ensures id !in Doomed(slots, manifest) {
      FillThenClose(atFill, deliveries, manifest, slots, id);
    }
    assert Doomed(slots, manifest) == {};
    PurgeNothing(atFill, now);
  }
}
