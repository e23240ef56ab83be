/** Which saved blueprints a later migration keeps as they are, and which it changes or
    loses: the exact conditions, and layouts that meet them. */
module Survival {
  import opened LuaValues
  import opened Canonical
  import opened Layouts
  import opened Inboxes
  import opened KeyedLists
  import opened Ids
  import opened Migration
  import opened MigrationLaws
  import opened Library
  import opened LibraryRoot

  /** The entities `ipairs` sees, which need not be those `#` promises. */
  predicate CountVisible(layout: Value)
    requires layout.Table? && Get(layout, "entities").Table?
  {
    1 <= |Get(layout, "entities").list| <= 512
  }

  lemma StorableExactly(layout: Value, canonical: Value, encode: Encoder)
    requires LayoutOf(layout, canonical) && ValidString(Get(layout, "name"), 100) && encode(canonical).Some?
    ensures Storable(canonical, encode) <==> CountVisible(layout)
  {
    LayoutGet(layout, canonical, "name");
  }

  /** What `save` stores of a layout is left alone by every later pass if and only if no
      optional list of it was hollow and `ipairs` saw between 1 and 512 entities. */
  lemma SavedIsSettled(layout: Value, canonical: Value, encode: Encoder)
    requires LayoutOf(layout, canonical) && ValidString(Get(layout, "name"), 100) && encode(canonical).Some?
    ensures LayoutSettled(canonical, encode) <==> !Hollow(layout) && CountVisible(layout)
  {
    StorableExactly(layout, canonical, encode);
    if !Hollow(layout) {
      CanonicalIsFixed(layout, canonical);
    } else if LayoutOf(canonical, canonical) {
      CanonicalTwice(layout, canonical, canonical);
    }
  }

  // ---------------------------------------------------------------------- one saved record

  /** The record holds what `save` stored of the layout. */
  ghost predicate HoldsSaved(record: Record, layout: Value, canonical: Value, encode: Encoder) {
    && record.revisions == [Revision(Num(1.0), canonical)]
    && LayoutOf(layout, canonical)
    && ValidString(Get(layout, "name"), 100)
    && (forall again | LayoutOf(canonical, again) :: encode(again).Some?)
  }

  lemma SavedStoredGet(record: Record)
    requires |record.revisions| == 1
    ensures var stored := Get(StoredRecord(record), "revisions");
            && stored.Table? && |stored.list| == 1 && stored.list[0].Table?
            && Get(stored.list[0], "layout") == record.revisions[0].layout
  {
    StoredRecordGet(record);
    StoredLayoutGet(record, 0);
  }

  lemma SameCount(layout: Value, canonical: Value)
    requires LayoutOf(layout, canonical)
    ensures Readable(canonical) && Get(canonical, "name") == Get(layout, "name")
    ensures |Get(canonical, "entities").list| == |Get(layout, "entities").list|
  {
    CanonicalIsSolid(layout, canonical);
    LayoutGet(layout, canonical, "name");
  }

  /** Rebuilding such a record fails exactly when `ipairs` saw no entity, or too many. */
  lemma SavedIsRefusedExactly(record: Record, layout: Value, canonical: Value, encode: Encoder)
    requires HoldsSaved(record, layout, canonical, encode)
    ensures CountVisible(layout) ==> !RecordRefused(StoredRecord(record), encode)
    ensures !CountVisible(layout) ==> forall id, again :: !RecordFrom(id, StoredRecord(record), again, encode)
  {
    SavedStoredGet(record);
    SameCount(layout, canonical);
    var source := Get(StoredRecord(record), "revisions").list[0];
    forall again | LayoutOf(canonical, again) ensures Storable(again, encode) <==> CountVisible(layout) {
      StorableExactly(canonical, again, encode);
    }
    forall id, again | RecordFrom(id, StoredRecord(record), again, encode) ensures CountVisible(layout) {
      assert RevisionOf(source, again.revisions[0], encode);
    }
  }

  lemma {:induction false} CandidateExactly(ids: seq<string>, byId: Value, candidates: seq<Record>, encode: Encoder, id: string)
    requires Candidates(ids, byId, candidates, encode) && Distinct(ids) && id in ids
    ensures !RecordRefused(Lookup(byId, id), encode) ==> exists i :: 0 <= i < |candidates| && candidates[i].id == id
    ensures (forall again :: !RecordFrom(id, Lookup(byId, id), again, encode)) ==>
              forall i | 0 <= i < |candidates| :: candidates[i].id != id
  {
    CandidateSources(ids, byId, candidates, encode);
    forall i | 0 <= i < |candidates| ensures RecordFrom(candidates[i].id, Lookup(byId, candidates[i].id), candidates[i], encode) {
      assert Rebuilt(ids, byId, candidates[i], encode);
    }
    if !RecordRefused(Lookup(byId, id), encode) {
      NotRefusedIsCandidate(ids, byId, candidates, encode, id);
    }
  }

  lemma {:induction false} NotRefusedIsCandidate(ids: seq<string>, byId: Value, candidates: seq<Record>, encode: Encoder, id: string)
    requires Candidates(ids, byId, candidates, encode) && id in ids && !RecordRefused(Lookup(byId, id), encode)
    ensures exists i :: 0 <= i < |candidates| && candidates[i].id == id
  {
    var init, last := ids[..|ids| - 1], ids[|ids| - 1];
    if last == id {
      assert candidates[|candidates| - 1].id == id;
    } else {
      assert id in init;
      if RecordRefused(Lookup(byId, last), encode) && Candidates(init, byId, candidates, encode) {
        NotRefusedIsCandidate(init, byId, candidates, encode, id);
      } else {
        var before := candidates[..|candidates| - 1];
        NotRefusedIsCandidate(init, byId, before, encode, id);
        var i :| 0 <= i < |before| && before[i].id == id;
        assert candidates[i] == before[i];
      }
    }
  }

  /** A saved blueprint survives the canonicalisation of a later migration if and only if
      `ipairs` saw between 1 and 512 of its entities when it was saved. */
  lemma SavedSurvivesExactly(
      inbox: Inbox, id: string, layout: Value, canonical: Value, schema: Value, encode: Encoder, candidates: seq<Record>)
    requires RecordsWellFormed(inbox) && id in inbox.byId && HoldsSaved(inbox.byId[id], layout, canonical, encode)
    requires Survivors(StoredForm(inbox, schema), encode, candidates)
    ensures (exists i :: 0 <= i < |candidates| && candidates[i].id == id) <==> CountVisible(layout)
  {
    var byId := Get(StoredForm(inbox, schema), "by_id");
    StoredFormGet(inbox, schema);
    UniqueIdsOfDistinct(inbox.order);
    assert Lookup(byId, id) == StoredRecord(inbox.byId[id]);
    SavedIsRefusedExactly(inbox.byId[id], layout, canonical, encode);
    CandidateExactly(inbox.order, byId, candidates, encode, id);
  }

  // ------------------------------------------------------------------------------ witnesses

  /** A layout with the given entities and tiles, and nothing else. */
  function Sketch(entities: Value, tiles: Value): Value {
    RecordOf(Put(map["name" := Str("x"), "entities" := entities], "tiles", tiles))
  }

  lemma SketchGet(entities: Value, tiles: Value)
    ensures Get(Sketch(entities, tiles), "name") == Str("x") && Get(Sketch(entities, tiles), "entities") == entities
    ensures Get(Sketch(entities, tiles), "tiles") == tiles
    ensures Get(Sketch(entities, tiles), "expectedOutputs") == Nil && Get(Sketch(entities, tiles), "description") == Nil
  {
  }

  lemma SketchField(entities: Value, tiles: Value, copied: seq<Value>, k: string)
    requires entities.Table? && forall i | 0 <= i < |entities.list| :: EntityReadable(entities.list[i])
    requires TilesReadable(tiles)
    ensures Find(LayoutFields(Sketch(entities, tiles))["entities" := ListOf(copied)], k)
            == Find(Sketch(ListOf(copied), Tiles(tiles)).fields, k)
  {
    SketchGet(entities, tiles);
    SketchGet(ListOf(copied), Tiles(tiles));
    if k in LAYOUT_KEYS {
      assert Find(LayoutFields(Sketch(entities, tiles)), k) == LayoutField(Sketch(entities, tiles), k);
    }
  }

  /** How a sketch canonicalises, given how its entities do. */
  lemma SketchCanonical(entities: Value, tiles: Value, copied: seq<Value>)
    requires entities.Table? && forall i | 0 <= i < |entities.list| :: EntityReadable(entities.list[i])
    requires EntitiesOf(entities.list, copied, ENTITY_EXTRA_SHAPE) && TilesReadable(tiles)
    ensures LayoutOf(Sketch(entities, tiles), Sketch(ListOf(copied), Tiles(tiles)))
  {
    var layout, canonical := Sketch(entities, tiles), Sketch(ListOf(copied), Tiles(tiles));
    SketchGet(entities, tiles);
    SketchGet(ListOf(copied), Tiles(tiles));
    var stored := LayoutFields(layout)["entities" := ListOf(copied)];
    forall k ensures Find(stored, k) == Find(canonical.fields, k) {
      SketchField(entities, tiles, copied, k);
    }
    SameFinds(stored, canonical.fields);
  }

  /** `#` promises two entities, the first slot is empty. */
  const UNSEEN := Table(map[], [], 2)

  lemma UnseenCanonical(canonical: Value)
    ensures LayoutOf(Sketch(UNSEEN, Nil), Sketch(EMPTY_TABLE, Nil))
    ensures LayoutOf(Sketch(UNSEEN, Nil), canonical) ==> canonical == Sketch(EMPTY_TABLE, Nil)
  {
    SketchCanonical(UNSEEN, Nil, []);
    SketchGet(UNSEEN, Nil);
    if LayoutOf(Sketch(UNSEEN, Nil), canonical) {
      assert Get(canonical, "entities").list == [];
    }
  }

  lemma UnseenIsValidated(encode: Encoder)
    requires encode(Sketch(EMPTY_TABLE, Nil)).Some?
    ensures Validated(Sketch(UNSEEN, Nil), encode) && !Hollow(Sketch(UNSEEN, Nil))
    ensures LayoutOf(Sketch(UNSEEN, Nil), Sketch(EMPTY_TABLE, Nil))
  {
    SketchGet(UNSEEN, Nil);
    forall c ensures LayoutOf(Sketch(UNSEEN, Nil), c) ==> c == Sketch(EMPTY_TABLE, Nil) {
      UnseenCanonical(c);
    }
    UnseenCanonical(Nil);
  }

  /** Such a layout passes validation, has no hollow optional list and is stored in a
      well-formed inbox; yet every later migration loses it. */
  lemma UnseenEntitiesAreLost(bytes: nat, now: Value, schema: Value, encode: Encoder)
    requires encode(Sketch(EMPTY_TABLE, Nil)) == Some(bytes) && bytes <= MAX_BLUEPRINT_BYTES_PER_PLAYER
    ensures var layout, record := Sketch(UNSEEN, Nil), NewRecord(BlueprintId(1, 1), Sketch(EMPTY_TABLE, Nil), bytes, now);
            var inbox := Saved(EMPTY_INBOX, record, now);
            && Validated(layout, encode) && !Hollow(layout) && LayoutOf(layout, Sketch(EMPTY_TABLE, Nil))
            && WellFormed(inbox) && inbox.order == [BlueprintId(1, 1)]
            && forall candidates, migrated | MigratedTo(StoredForm(inbox, schema), encode, candidates, migrated) :: migrated.order == []
  {
    var canonical := Sketch(EMPTY_TABLE, Nil);
    var record := NewRecord(BlueprintId(1, 1), canonical, bytes, now);
    var inbox := Saved(EMPTY_INBOX, record, now);
    UnseenIsValidated(encode);
    SketchGet(EMPTY_TABLE, Nil);
    SaveKeepsWellFormed(EMPTY_INBOX, record, now);
    forall candidates, migrated | MigratedTo(StoredForm(inbox, schema), encode, candidates, migrated) ensures migrated.order == [] {
      UnseenRecordIsDropped(inbox, record.id, canonical, schema, encode, candidates);
    }
  }

  lemma CandidatesOfOne(id: string, byId: Value, candidates: seq<Record>, encode: Encoder)
    requires Candidates([id], byId, candidates, encode)
    ensures forall i | 0 <= i < |candidates| :: candidates[i].id == id
  {
    CandidateSources([id], byId, candidates, encode);
    forall i | 0 <= i < |candidates| ensures candidates[i].id == id {
      assert Rebuilt([id], byId, candidates[i], encode);
    }
  }

  lemma UnseenRecordIsDropped(
      inbox: Inbox, id: string, canonical: Value, schema: Value, encode: Encoder, candidates: seq<Record>)
    requires RecordsWellFormed(inbox) && inbox.order == [id] && canonical == Sketch(EMPTY_TABLE, Nil)
    requires inbox.byId[id].revisions == [Revision(Num(1.0), canonical)] && encode(canonical).Some?
    requires Survivors(StoredForm(inbox, schema), encode, candidates)
    ensures candidates == [] && Retained(candidates) == []
  {
    SketchGet(EMPTY_TABLE, Nil);
    SketchCanonical(EMPTY_TABLE, Nil, []);
    forall again | LayoutOf(canonical, again) ensures encode(again).Some? {
      assert Get(again, "entities").list == [];
    }
    StoredFormGet(inbox, schema);
    UniqueIdsOfDistinct(inbox.order);
    CandidatesOfOne(id, Get(StoredForm(inbox, schema), "by_id"), candidates, encode);
    assert candidates != [] ==> candidates[0].id == id;
    SavedSurvivesExactly(inbox, id, canonical, canonical, schema, encode, candidates);
  }

  /** One real entity. */
  const BELT := RecordOf(map[
    "entityNumber" := Num(1.0), "prototype" := Str("belt"), "position" := RecordOf(map["x" := Num(0.0), "y" := Num(0.0)])])

  lemma BeltGet(k: string)
    ensures Get(BELT, "position") == RecordOf(map["x" := Num(0.0), "y" := Num(0.0)])
    ensures Get(BELT, "connections") == Nil && EntityReadable(BELT)
    ensures k !in BASE_KEYS ==> Get(BELT, k) == Nil
    ensures k in BASE_KEYS ==> BaseField(BELT, k) == Get(BELT, k)
  {
    if k == "position" {
      var p := RecordOf(map["x" := Num(0.0), "y" := Num(0.0)]);
      assert Select(p, POSITION_KEYS).fields == p.fields;
    }
  }

  lemma BeltBase()
    ensures BaseFields(BELT) == BELT.fields
  {
    BeltGet("");
    forall k ensures Find(BaseFields(BELT), k) == Find(BELT.fields, k) {
      BeltGet(k);
    }
    SameFinds(BaseFields(BELT), BELT.fields);
  }

  lemma BeltHasNoExtras(extra: Shape)
    requires BASE_KEYS !! Keys(extra)
    ensures ExtraFields(BELT, extra) == map[] && CopyOf(BELT, extra, Nil)
  {
    forall k | k in BELT.fields ensures k !in Keys(extra) {
      assert k in BASE_KEYS;
    }
    forall k | k in Keys(extra) ensures Get(BELT, k) == Get(EMPTY_TABLE, k) {
      BeltGet(k);
    }
    EmptyCopies(extra);
    CopyDependsOnKeys(EMPTY_TABLE, BELT, extra, Nil);
  }

  lemma BeltIsCanonical(extra: Shape)
    requires BASE_KEYS !! Keys(extra)
    ensures EntityReadable(BELT) && EntityOf(BELT, BELT, extra)
  {
    BeltGet("");
    BeltBase();
    BeltHasNoExtras(extra);
    assert BELT.fields + map[] == BELT.fields;
  }

  /** Entities that are their own canonical form. */
  ghost predicate FixedEntities(entities: Value, extra: Shape) {
    && entities == ListOf(Elems(entities))
    && entities.list != []
    && (forall i | 0 <= i < |entities.list| :: EntityReadable(entities.list[i]))
    && EntitiesOf(entities.list, entities.list, extra)
  }

  function Elems(v: Value): seq<Value> {
    if v.Table? then v.list else []
  }

  lemma OneFixedEntity(entity: Value, extra: Shape)
    requires EntityReadable(entity) && EntityOf(entity, entity, extra)
    ensures FixedEntities(ListOf([entity]), extra)
  {
  }

  lemma BeltsAreFixed()
    ensures FixedEntities(ListOf([BELT]), ENTITY_EXTRA_SHAPE)
  {
    BaseAndExtraKeysApart();
    BeltIsCanonical(ENTITY_EXTRA_SHAPE);
    OneFixedEntity(BELT, ENTITY_EXTRA_SHAPE);
  }

  lemma SketchesDiffer(entities: Value, a: Value, b: Value)
    requires a != b
    ensures Sketch(entities, a) != Sketch(entities, b)
  {
    SketchGet(entities, a);
    SketchGet(entities, b);
  }

  lemma UnseenTilesAreHollow(entities: Value)
    requires FixedEntities(entities, ENTITY_EXTRA_SHAPE) && |entities.list| <= MAX_STORED_ENTITIES
    ensures Readable(Sketch(entities, UNSEEN)) && Hollow(Sketch(entities, UNSEEN)) && CountVisible(Sketch(entities, UNSEEN))
  {
    SketchGet(entities, UNSEEN);
  }

  lemma TilesPass(entities: Value)
    requires FixedEntities(entities, ENTITY_EXTRA_SHAPE)
    ensures LayoutOf(Sketch(entities, UNSEEN), Sketch(entities, EMPTY_TABLE))
    ensures LayoutOf(Sketch(entities, EMPTY_TABLE), Sketch(entities, Nil))
  {
    SketchCanonical(entities, UNSEEN, entities.list);
    SketchCanonical(entities, EMPTY_TABLE, entities.list);
    assert Tiles(UNSEEN) == EMPTY_TABLE && Tiles(EMPTY_TABLE) == Nil;
  }

  lemma BeltsCopyOneWay(canonical: Value)
    requires LayoutOf(Sketch(ListOf([BELT]), UNSEEN), canonical)
    ensures canonical == Sketch(ListOf([BELT]), EMPTY_TABLE)
  {
    var entities := ListOf([BELT]);
    BeltsAreFixed();
    TilesPass(entities);
    SketchGet(entities, UNSEEN);
    BeltGet("");
    BaseAndExtraKeysApart();
    EntitiesTwice(entities.list, entities.list, ENTITY_EXTRA_SHAPE, Get(canonical, "entities").list);
    SketchGet(entities, EMPTY_TABLE);
  }

  lemma BeltsAreValidated(encode: Encoder)
    requires encode(Sketch(ListOf([BELT]), EMPTY_TABLE)).Some?
    ensures Validated(Sketch(ListOf([BELT]), UNSEEN), encode)
  {
    var layout := Sketch(ListOf([BELT]), UNSEEN);
    BeltsAreFixed();
    UnseenTilesAreHollow(ListOf([BELT]));
    SketchGet(ListOf([BELT]), UNSEEN);
    forall canonical | LayoutOf(layout, canonical) ensures encode(canonical).Some? {
      BeltsCopyOneWay(canonical);
    }
  }

  /** A layout that passes validation, with one real entity, whose second canonical pass
      does change something: its tile list has a positive `#` and an empty first slot. */
  lemma HollowExample(encode: Encoder)
    requires encode(Sketch(ListOf([BELT]), EMPTY_TABLE)).Some?
    ensures var entities := ListOf([BELT]);
            && Validated(Sketch(entities, UNSEEN), encode)
            && LayoutOf(Sketch(entities, UNSEEN), Sketch(entities, EMPTY_TABLE))
            && LayoutOf(Sketch(entities, EMPTY_TABLE), Sketch(entities, Nil))
            && Sketch(entities, EMPTY_TABLE) != Sketch(entities, Nil)
            && Hollow(Sketch(entities, UNSEEN)) && CountVisible(Sketch(entities, UNSEEN))
  {
    var entities := ListOf([BELT]);
    BeltsAreFixed();
    BeltsAreValidated(encode);
    TilesPass(entities);
    UnseenTilesAreHollow(entities);
    SketchesDiffer(entities, EMPTY_TABLE, Nil);
  }

  /** A save file that holds one blueprint with the given layout. */
  function OneBlueprint(id: string, layout: Value): Value {
    RecordOf(map[
      "order" := ListOf([Str(id)]),
      "by_id" := RecordOf(map[id := RecordOf(map["revisions" := ListOf([RecordOf(map["layout" := layout])])])])])
  }

  function Survivor(id: string, bytes: nat, layout: Value): Record {
    Record(id, "x", bytes, Nil, Nil, [Revision(Nil, layout)])
  }

  lemma OneBlueprintGet(id: string, layout: Value)
    ensures Lookup(OneBlueprint(id, layout), "order") == ListOf([Str(id)])
    ensures Lookup(Lookup(OneBlueprint(id, layout), "by_id"), id) == RecordOf(map["revisions" := ListOf([RecordOf(map["layout" := layout])])])
  {
  }

  lemma SurvivorFrom(id: string, bytes: nat, layout: Value, canonical: Value, encode: Encoder)
    requires LayoutOf(layout, canonical) && Storable(canonical, encode) && encode(canonical) == Some(bytes)
    requires Get(canonical, "name") == Str("x")
    ensures RecordFrom(id, Lookup(Lookup(OneBlueprint(id, layout), "by_id"), id), Survivor(id, bytes, canonical), encode)
  {
    OneBlueprintGet(id, layout);
    var record, revision := Survivor(id, bytes, canonical), RecordOf(map["layout" := layout]);
    assert record.revisions[..0] == [];
    assert EncodedBytes(record.revisions, encode) == EncodedBytes(record.revisions[..0], encode) + bytes;
    assert RevisionOf(revision, record.revisions[0], encode);
  }

  lemma OneIsHollow(id: string, layout: Value)
    requires Readable(layout) && Hollow(layout)
    ensures HollowRecord(Lookup(Lookup(OneBlueprint(id, layout), "by_id"), id))
  {
    OneBlueprintGet(id, layout);
    var source := Lookup(Lookup(OneBlueprint(id, layout), "by_id"), id);
    var list := Get(source, "revisions").list;
    assert list == [RecordOf(map["layout" := layout])];
    assert list[0].Table? && Get(list[0], "layout") == layout;
  }

  lemma OneCandidate(id: string, byId: Value, record: Record, encode: Encoder)
    requires RecordFrom(id, Lookup(byId, id), record, encode)
    ensures Candidates([id], byId, [record], encode)
  {
    assert [id][..0] == [] && [record][..0] == [];
    assert Candidates([], byId, [], encode);
  }

  lemma OneRetained(record: Record)
    requires record.bytes <= MAX_BLUEPRINT_BYTES_PER_PLAYER
    ensures Retained([record]) == [record] && IdsOf([record]) == [record.id] && record.id in MapOf([record], RecordId)
  {
    assert [record][0..] == [record] && Sum([record]) == record.bytes + Sum([record][1..]);
    assert SuffixFits([record], 0);
    assert [record][..0] == [];
  }

  /** From a save file with that layout the migration keeps the blueprint, and a second
      migration does change the result of the first. */
  lemma HollowTableMigratesTwice(id: string, bytes: nat, schema: Value, encode: Encoder)
    requires encode(Sketch(ListOf([BELT]), EMPTY_TABLE)) == Some(bytes) && bytes <= MAX_BLUEPRINT_BYTES_PER_PLAYER
    ensures var stored := OneBlueprint(id, Sketch(ListOf([BELT]), UNSEEN));
            var first := [Survivor(id, bytes, Sketch(ListOf([BELT]), EMPTY_TABLE))];
            var once := InboxFrom(stored, first);
            && MigratedTo(stored, encode, first, once) && once.order == [id]
            && forall second, twice | MigratedTo(StoredForm(once, schema), encode, second, twice) :: twice != once
  {
    HollowExample(encode);
    HollowTwice(id, bytes, Sketch(ListOf([BELT]), UNSEEN), Sketch(ListOf([BELT]), EMPTY_TABLE), schema, encode) by {
      SketchGet(ListOf([BELT]), EMPTY_TABLE);
    }
  }

  lemma OneUniqueId(id: string)
    ensures UniqueIds([Str(id)]) == [id]
  {
    assert [Str(id)][..0] == [];
  }

  lemma HollowTwice(id: string, bytes: nat, layout: Value, canonical: Value, schema: Value, encode: Encoder)
    requires LayoutOf(layout, canonical) && Storable(canonical, encode) && encode(canonical) == Some(bytes)
    requires Get(canonical, "name") == Str("x") && Hollow(layout) && bytes <= MAX_BLUEPRINT_BYTES_PER_PLAYER
    ensures var stored, first := OneBlueprint(id, layout), [Survivor(id, bytes, canonical)];
            var once := InboxFrom(stored, first);
            && MigratedTo(stored, encode, first, once) && once.order == [id]
            && forall second, twice | MigratedTo(StoredForm(once, schema), encode, second, twice) :: twice != once
  {
    var stored, record := OneBlueprint(id, layout), Survivor(id, bytes, canonical);
    var once := InboxFrom(stored, [record]);
    OneBlueprintGet(id, layout);
    SurvivorFrom(id, bytes, layout, canonical, encode);
    OneIsHollow(id, layout);
    OneCandidate(id, Lookup(stored, "by_id"), record, encode);
    OneRetained(record);
    OneUniqueId(id);
    forall second, twice | MigratedTo(StoredForm(once, schema), encode, second, twice) ensures twice != once {
      MigrationTwice(stored, encode, [record], once, schema, second, twice);
    }
  }
}
