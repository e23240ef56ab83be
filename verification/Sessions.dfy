/** Whole stories: a window that is filled, left open while any calls run, and closed;
    and a save that is migrated after any run of calls. */
module Sessions {
  import opened LuaValues
  import opened Canonical
  import opened Inboxes
  import opened Ids
  import opened Library
  import opened Migration
  import opened MigrationLaws
  import opened InboxWindow
  import opened Reconciliation

  // --------------------------------------------------------------------- the two namespaces

  ghost predicate NamespacedWorld(w: World) {
    forall p | p in w.inboxes :: Namespaced(w.inboxes[p])
  }

  /** A stored table lists blueprints in one list and books in the other, by prefix. */
  ghost predicate Prefixed(stored: Value) {
    && (forall id: string | Str(id) in ListIn(Lookup(stored, "order")) :: !IsBookId(id))
    && (forall id: string | Str(id) in ListIn(Lookup(stored, "book_order")) :: IsBookId(id))
  }

  ghost predicate NamespacedCalls(calls: seq<Call>) {
    forall i | 0 <= i < |calls| && calls[i].request.Migrate? :: Prefixed(calls[i].request.stored)
  }

  /** What the library itself stored is prefixed so. */
  lemma StoredFormIsPrefixed(inbox: Inbox, schema: Value)
    requires Ready(inbox)
    ensures Prefixed(StoredForm(inbox, schema))
  {
    StoredFormGet(inbox, schema);
    forall id: string ensures Str(id) in Strs(inbox.order) ==> id in inbox.byId {
    }
    forall id: string ensures Str(id) in Strs(inbox.bookOrder) ==> id in inbox.books {
    }
  }

  lemma NextKeepsNamespaces(w: World, call: Call, encode: Encoder)
    requires NamespacedWorld(w) && Sound(w, call, encode) && (call.request.Migrate? ==> Prefixed(call.request.stored))
    ensures NamespacedWorld(Next(w, call))
  {
    if call.request.Migrate? {
      var stored, candidates := call.request.stored, call.request.candidates;
      MigrationBringsNothing(stored, encode, candidates, InboxFrom(stored, candidates));
    } else if !Refused(call.request) {
      AfterKeys(InboxOf(w, call.player), call, w.nextId);
      IdsInjective(call.player, w.nextId, call.player, w.nextId);
    }
  }

  lemma {:induction false} RunKeepsNamespaces(w: World, calls: seq<Call>, encode: Encoder)
    requires NamespacedWorld(w) && SoundRun(w, calls, encode) && NamespacedCalls(calls)
    ensures NamespacedWorld(Run(w, calls))
    decreases calls
  {
    if calls != [] {
      NextKeepsNamespaces(w, calls[0], encode);
      assert forall i | 0 <= i < |calls[1..]| :: calls[1..][i] == calls[i + 1];
      RunKeepsNamespaces(Next(w, calls[0]), calls[1..], encode);
    }
  }

  lemma ReachableIsReady(w: World, calls: seq<Call>, player: nat, encode: Encoder)
    requires WorldWellFormed(w) && SoundRun(w, calls, encode) && NamespacedWorld(w) && NamespacedCalls(calls)
    ensures Ready(InboxOf(Run(w, calls), player))
  {
    RunKeepsWellFormed(w, calls, encode);
    RunKeepsNamespaces(w, calls, encode);
    var later := Run(w, calls);
    if player in later.inboxes {
      assert Kept(later.inboxes[player], player, later.nextId);
    }
  }

  // ------------------------------------------------------------------------ window sessions

  /** A close deletes only what the fill could show. */
  lemma DoomedWereShown(atFill: Inbox, deliveries: seq<Delivery>, manifest: Manifest, slots: seq<Slot>, id: string)
    requires Ready(atFill) && |deliveries| == |Listing(atFill)|
    requires ManifestOf(Rendered(Listing(atFill), deliveries), manifest)
    requires id in Doomed(slots, manifest)
    ensures id in atFill.byId || id in atFill.books
  {
    CloseRemovesExactly(Rendered(Listing(atFill), deliveries), manifest, slots, id);
    var row :| UniquelyRendered(Rendered(Listing(atFill), deliveries), row) && row.id == id && !StillThere(slots, row.name);
    RenderedRows(Listing(atFill), deliveries, row);
    ListingIsSound(atFill);
    var i :| 0 <= i < |Listing(atFill)| && Listing(atFill)[i] == row;
    assert Shown(atFill, Listing(atFill)[i]);
  }

  /** A window is filled, any calls by any players run, the player does anything to the
      slots, and the window closes. The inbox stays well formed; a record, blueprint or
      book, is deleted exactly when the fill rendered it, alone under its name, and no
      stack of that name is left; what was hidden in a book at the fill, or saved since,
      is kept as it is. */
  lemma SessionOutcome(
      w: World, player: nat, deliveries: seq<Delivery>, manifest: Manifest, calls: seq<Call>, slots: seq<Slot>, now: Value,
      encode: Encoder)
    requires WorldWellFormed(w) && NamespacedWorld(w) && SoundRun(w, calls, encode) && NamespacedCalls(calls)
    requires |deliveries| == |Listing(InboxOf(w, player))|
    requires ManifestOf(Rendered(Listing(InboxOf(w, player)), deliveries), manifest)
    ensures var atFill, atClose := InboxOf(w, player), InboxOf(Run(w, calls), player);
            var rendered := Rendered(Listing(atFill), deliveries);
            var left := Purged(atClose, Doomed(slots, manifest), now);
            && Ready(left)
            && (forall id | id in atClose.byId || id in atClose.books ::
                  id !in left.byId && id !in left.books <==>
                  exists row :: UniquelyRendered(rendered, row) && row.id == id && !StillThere(slots, row.name))
            && (forall id | id in atClose.byId && (InSomeBook(atFill, id)
                                                   || (id !in atFill.byId && id !in atFill.books)) ::
                  id in left.byId && left.byId[id] == atClose.byId[id])
  {
    var atFill, atClose := InboxOf(w, player), InboxOf(Run(w, calls), player);
    var rendered := Rendered(Listing(atFill), deliveries);
    assert Run(w, []) == w;
    ReachableIsReady(w, [], player, encode);
    ReachableIsReady(w, calls, player, encode);
    PurgeKeepsReady(atClose, Doomed(slots, manifest), now);
    forall id | id in atClose.byId || id in atClose.books
      ensures id in Doomed(slots, manifest) <==>
              exists row :: UniquelyRendered(rendered, row) && row.id == id && !StillThere(slots, row.name)
    {
      CloseRemovesExactly(rendered, manifest, slots, id);
    }
    forall id | InSomeBook(atFill, id) ensures id !in Doomed(slots, manifest) {
      HiddenMembersSurvive(atFill, deliveries, manifest, slots, id);
    }
    forall id | id in Doomed(slots, manifest) ensures id in atFill.byId || id in atFill.books {
      DoomedWereShown(atFill, deliveries, manifest, slots, id);
    }
  }

  // ----------------------------------------------------------------- migrating after a run

  ghost predicate SettledWorld(w: World, encode: Encoder) {
    forall p | p in w.inboxes :: Settled(w.inboxes[p], encode)
  }

  /** Saves carry settled layouts, migrations tables without hollow lists. */
  ghost predicate SettledCall(call: Call, encode: Encoder) {
    match call.request
    case Save(canonical, bytes, _) => LayoutSettled(canonical, encode) && encode(canonical) == Some(bytes)
    case Migrate(stored, _) => Solid(stored)
    case _ => true
  }

  lemma NewRecordSettled(id: string, canonical: Value, bytes: nat, now: Value, encode: Encoder)
    requires LayoutSettled(canonical, encode) && encode(canonical) == Some(bytes)
    ensures RecordSettled(NewRecord(id, canonical, bytes, now), encode)
  {
    var revisions := NewRecord(id, canonical, bytes, now).revisions;
    assert revisions[..0] == [];
    assert EncodedBytes(revisions, encode) == EncodedBytes(revisions[..0], encode) + bytes;
  }

  lemma AfterKeepsSettled(inbox: Inbox, call: Call, number: nat, encode: Encoder)
    requires Settled(inbox, encode) && SettledCall(call, encode) && !Refused(call.request)
    requires call.request.Migrate? ==> Survivors(call.request.stored, encode, call.request.candidates)
    ensures Settled(After(inbox, call, number), encode)
  {
    var after := After(inbox, call, number);
    match call.request
    case Migrate(stored, candidates) => SolidMigratesSettled(stored, encode, candidates, after);
    case Save(canonical, bytes, delivered) =>
      NewRecordSettled(BlueprintId(call.player, number), canonical, bytes, call.now, encode);
    case _ =>
  }

  lemma NextKeepsSettled(w: World, call: Call, encode: Encoder)
    requires SettledWorld(w, encode) && SettledCall(call, encode) && Sound(w, call, encode)
    ensures SettledWorld(Next(w, call), encode)
  {
    if !Refused(call.request) {
      AfterKeepsSettled(InboxOf(w, call.player), call, w.nextId, encode);
    }
  }

  lemma {:induction false} RunKeepsSettled(w: World, calls: seq<Call>, encode: Encoder)
    requires SettledWorld(w, encode) && SoundRun(w, calls, encode)
    requires forall i | 0 <= i < |calls| :: SettledCall(calls[i], encode)
    ensures SettledWorld(Run(w, calls), encode)
    decreases calls
  {
    if calls != [] {
      NextKeepsSettled(w, calls[0], encode);
      RunKeepsSettled(Next(w, calls[0]), calls[1..], encode);
    }
  }

  /** After any run of calls, migrating a player's inbox under whatever schema number
      changes nothing if and only if every record in it is settled; and that is so
      whenever every saved layout of the run was. */
  lemma MigrationAfterAnyRun(
      w: World, calls: seq<Call>, player: nat, schema: Value, encode: Encoder, candidates: seq<Record>, migrated: Inbox)
    requires WorldWellFormed(w) && SoundRun(w, calls, encode)
    requires MigratedTo(StoredForm(InboxOf(Run(w, calls), player), schema), encode, candidates, migrated)
    ensures migrated == InboxOf(Run(w, calls), player) <==> Settled(InboxOf(Run(w, calls), player), encode)
    ensures SettledWorld(w, encode) && (forall i | 0 <= i < |calls| :: SettledCall(calls[i], encode)) ==>
              migrated == InboxOf(Run(w, calls), player)
  {
    RunKeepsWellFormed(w, calls, encode);
    var later := Run(w, calls);
    InboxIsKept(later, player);
    UnchangedExactly(InboxOf(later, player), schema, encode, candidates, migrated);
    if SettledWorld(w, encode) && forall i | 0 <= i < |calls| :: SettledCall(calls[i], encode) {
      RunKeepsSettled(w, calls, encode);
    }
  }
}
