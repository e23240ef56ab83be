/** `canonical_layout`: the stored form of a blueprint layout, and when applying it
    twice is the same as applying it once. */
module Layouts {
  import opened LuaValues
  import opened Canonical

  const POSITION_KEYS := {"x", "y"}
  const CONNECTION_KEYS := {"toEntityNumber", "wire", "fromConnectorId", "toConnectorId"}
  const OUTPUT_KEYS := {"type", "name", "perSecond"}
  const BASE_KEYS := {"entityNumber", "prototype", "position", "direction", "quality", "recipe", "connections"}
  const LAYOUT_KEYS := {"name", "description", "tiles", "expectedOutputs"}

  /** A record with the named keys of `v`, the nil ones left absent. */
  function Select(v: Value, keys: set<string>): Value
    requires Indexable(v)
  {
    RecordOf(map k | k in keys && Index(v, k) != Nil :: Index(v, k))
  }

  // ------------------------------------------------------------- what does not raise

  /** `type(t) == "table" and #t > 0`, the guard in front of the three optional lists. */
  predicate Filled(v: Value) {
    v.Table? && v.border > 0
  }

  /** A table whose first slot is nil although `#` answers a positive number. */
  predicate HollowList(v: Value) {
    Filled(v) && v.list == []
  }

  ghost predicate ConnectionsReadable(v: Value) {
    Filled(v) ==> forall i | 0 <= i < |v.list| :: Indexable(v.list[i])
  }

  ghost predicate EntityReadable(source: Value) {
    && source.Table?
    && Indexable(Get(source, "position"))
    && ConnectionsReadable(Get(source, "connections"))
  }

  predicate TileReadable(source: Value) {
    source.Table? && Indexable(Get(source, "position"))
  }

  ghost predicate TilesReadable(v: Value) {
    Filled(v) ==> forall i | 0 <= i < |v.list| :: TileReadable(v.list[i])
  }

  /** The layouts `canonical_layout` returns on; on every other value it raises. */
  ghost predicate Readable(layout: Value) {
    && layout.Table?
    && Get(layout, "entities").Table?
    && (forall i | 0 <= i < |Get(layout, "entities").list| :: EntityReadable(Get(layout, "entities").list[i]))
    && TilesReadable(Get(layout, "tiles"))
    && ConnectionsReadable(Get(layout, "expectedOutputs"))
  }

  // ------------------------------------------------------------------ the stored form

  function SelectAll(v: Value, keys: set<string>): Value
    requires ConnectionsReadable(v)
  {
    if Filled(v)
    then ListOf(seq(|v.list|, i requires 0 <= i < |v.list| => Select(v.list[i], keys)))
    else Nil
  }

  function BaseField(source: Value, k: string): Value
    requires EntityReadable(source)
  {
    if k == "position" then Select(Get(source, k), POSITION_KEYS)
    else if k == "connections" then SelectAll(Get(source, k), CONNECTION_KEYS)
    else Get(source, k)
  }

  function BaseFields(source: Value): map<string, Value>
    requires EntityReadable(source)
  {
    map k | k in BASE_KEYS && BaseField(source, k) != Nil :: BaseField(source, k)
  }

  function ExtraFields(entity: Value, extra: Shape): map<string, Value> {
    map k | k in Fields(entity) && k in Keys(extra) :: Fields(entity)[k]
  }

  ghost predicate EntityOf(source: Value, entity: Value, extra: Shape)
    requires EntityReadable(source)
  {
    && entity == RecordOf(BaseFields(source) + ExtraFields(entity, extra))
    && CopyOf(source, extra, Wrap(ExtraFields(entity, extra)))
  }

  function Tile(source: Value): Value
    requires TileReadable(source)
  {
    RecordOf(Put(map["position" := Select(Get(source, "position"), POSITION_KEYS)],
                 "prototype", Get(source, "prototype")))
  }

  function Tiles(v: Value): Value
    requires TilesReadable(v)
  {
    if Filled(v)
    then ListOf(seq(|v.list|, i requires 0 <= i < |v.list| => Tile(v.list[i])))
    else Nil
  }

  function LayoutField(layout: Value, k: string): Value
    requires Readable(layout)
  {
    if k == "tiles" then Tiles(Get(layout, k))
    else if k == "expectedOutputs" then SelectAll(Get(layout, k), OUTPUT_KEYS)
    else Get(layout, k)
  }

  function LayoutFields(layout: Value): map<string, Value>
    requires Readable(layout)
  {
    map k | k in LAYOUT_KEYS && LayoutField(layout, k) != Nil :: LayoutField(layout, k)
  }

  ghost predicate EntitiesOf(sources: seq<Value>, entities: seq<Value>, extra: Shape)
    requires forall i | 0 <= i < |sources| :: EntityReadable(sources[i])
  {
    |entities| == |sources| && forall i | 0 <= i < |sources| :: EntityOf(sources[i], entities[i], extra)
  }

  /** `canonical` is what `canonical_layout(layout)` returns under some enumeration order. */
  ghost predicate LayoutOf(layout: Value, canonical: Value) {
    && Readable(layout)
    && canonical.Table? && Get(canonical, "entities").Table?
    && canonical == RecordOf(LayoutFields(layout)["entities" := ListOf(Get(canonical, "entities").list)])
    && EntitiesOf(Get(layout, "entities").list, Get(canonical, "entities").list, ENTITY_EXTRA_SHAPE)
  }

  // --------------------------------------------------------------------- idempotence

  ghost predicate HollowConnections(layout: Value)
    requires Readable(layout)
  {
    exists i | 0 <= i < |Get(layout, "entities").list| :: HollowList(Get(Get(layout, "entities").list[i], "connections"))
  }

  /** Some optional list of the layout is hollow: its guard lets it through, and the
      copy made of it is an empty table, which the next pass drops. */
  ghost predicate Hollow(layout: Value)
    requires Readable(layout)
  {
    || HollowList(Get(layout, "tiles"))
    || HollowList(Get(layout, "expectedOutputs"))
    || HollowConnections(layout)
  }

  lemma BaseKeyApart(k: string)
    requires k in BASE_KEYS
    ensures k !in Keys(ENTITY_EXTRA_SHAPE)
  {
    assert k !in ENTITY_EXTRA_SHAPE.scalars;
    assert k !in ENTITY_EXTRA_SHAPE.arrays;
  }

  lemma BaseAndExtraKeysApart()
    ensures BASE_KEYS !! Keys(ENTITY_EXTRA_SHAPE)
  {
    forall k | k in BASE_KEYS ensures k !in Keys(ENTITY_EXTRA_SHAPE) {
      BaseKeyApart(k);
    }
  }

  lemma SelectTwice(v: Value, keys: set<string>)
    requires Indexable(v)
    ensures Select(Select(v, keys), keys) == Select(v, keys)
  {
    var once := Select(v, keys);
    assert forall k | k in keys :: Index(once, k) == Index(v, k);
  }

  lemma SelectAllTwice(v: Value, keys: set<string>)
    requires ConnectionsReadable(v)
    ensures ConnectionsReadable(SelectAll(v, keys)) && !HollowList(SelectAll(v, keys))
    ensures SelectAll(SelectAll(v, keys), keys) == SelectAll(v, keys) <==> !HollowList(v)
  {
    if Filled(v) {
      var once := SelectAll(v, keys);
      forall i | 0 <= i < |v.list| ensures Select(once.list[i], keys) == once.list[i] {
        SelectTwice(v.list[i], keys);
      }
      if v.list != [] {
        assert SelectAll(once, keys).list == once.list;
      }
    }
  }

  lemma TileTwice(v: Value)
    requires TileReadable(v)
    ensures TileReadable(Tile(v)) && Tile(Tile(v)) == Tile(v)
  {
    SelectTwice(Get(v, "position"), POSITION_KEYS);
  }

  lemma TilesTwice(v: Value)
    requires TilesReadable(v)
    ensures TilesReadable(Tiles(v)) && !HollowList(Tiles(v))
    ensures Tiles(Tiles(v)) == Tiles(v) <==> !HollowList(v)
  {
    if Filled(v) {
      var once := Tiles(v);
      forall i | 0 <= i < |v.list| ensures TileReadable(once.list[i]) && Tile(once.list[i]) == once.list[i] {
        TileTwice(v.list[i]);
      }
      if v.list != [] {
        assert Tiles(once).list == once.list;
      }
    }
  }

  /** What a stored entity answers for each key. */
  lemma EntityGet(source: Value, entity: Value, extra: Shape, k: string)
    requires BASE_KEYS !! Keys(extra)
    requires EntityReadable(source) && EntityOf(source, entity, extra)
    ensures k in BASE_KEYS ==> Get(entity, k) == BaseField(source, k)
    ensures k in Keys(extra) ==> Get(entity, k) == Get(RecordOf(ExtraFields(entity, extra)), k)
  {
  }

  lemma EntityExtrasFixed(source: Value, entity: Value, extra: Shape, again: Value)
    requires BASE_KEYS !! Keys(extra)
    requires EntityReadable(source) && EntityOf(source, entity, extra)
    requires CopyOf(entity, extra, again)
    ensures again == Wrap(ExtraFields(entity, extra))
  {
    var extras := ExtraFields(entity, extra);
    forall k | k in Keys(extra) ensures Get(RecordOf(extras), k) == Get(entity, k) {
      EntityGet(source, entity, extra, k);
    }
    CopyDependsOnKeys(entity, RecordOf(extras), extra, again);
    if extras == map[] {
      EmptyCopy(extra, again);
    } else {
      CopyFixed(source, extra, RecordOf(extras), again);
    }
  }

  lemma EntityReadableAgain(source: Value, entity: Value, extra: Shape)
    requires BASE_KEYS !! Keys(extra)
    requires EntityReadable(source) && EntityOf(source, entity, extra)
    ensures EntityReadable(entity)
    ensures !HollowList(Get(entity, "connections"))
  {
    EntityGet(source, entity, extra, "position");
    EntityGet(source, entity, extra, "connections");
    SelectAllTwice(Get(source, "connections"), CONNECTION_KEYS);
  }

  lemma BaseFieldsTwice(source: Value, entity: Value, extra: Shape)
    requires BASE_KEYS !! Keys(extra)
    requires EntityReadable(source) && EntityOf(source, entity, extra) && EntityReadable(entity)
    ensures forall k | k in BASE_KEYS && k != "connections" :: BaseField(entity, k) == BaseField(source, k)
    ensures BaseField(entity, "connections") == BaseField(source, "connections") <==> !HollowList(Get(source, "connections"))
  {
    forall k | k in BASE_KEYS ensures Get(entity, k) == BaseField(source, k) {
      EntityGet(source, entity, extra, k);
    }
    SelectTwice(Get(source, "position"), POSITION_KEYS);
    SelectAllTwice(Get(source, "connections"), CONNECTION_KEYS);
  }

  lemma WrapInjective(a: map<string, Value>, b: map<string, Value>)
    requires Wrap(a) == Wrap(b)
    ensures a == b
  {
  }

  lemma EntityTwice(source: Value, entity: Value, extra: Shape, again: Value)
    requires BASE_KEYS !! Keys(extra)
    requires EntityReadable(source) && EntityOf(source, entity, extra)
    requires EntityReadable(entity) && EntityOf(entity, again, extra)
    ensures again == entity <==> !HollowList(Get(source, "connections"))
  {
    EntityExtrasFixed(source, entity, extra, Wrap(ExtraFields(again, extra)));
    WrapInjective(ExtraFields(again, extra), ExtraFields(entity, extra));
    EntityBaseTwice(source, entity, extra, again);
  }

  lemma EntityBaseTwice(source: Value, entity: Value, extra: Shape, again: Value)
    requires BASE_KEYS !! Keys(extra)
    requires EntityReadable(source) && EntityOf(source, entity, extra)
    requires EntityReadable(entity) && EntityOf(entity, again, extra)
    ensures !HollowList(Get(source, "connections")) ==> BaseFields(entity) == BaseFields(source)
    ensures HollowList(Get(source, "connections")) ==> Get(again, "connections") != Get(entity, "connections")
  {
    BaseFieldsTwice(source, entity, extra);
    if HollowList(Get(source, "connections")) {
      EntityGet(source, entity, extra, "connections");
      EntityGet(entity, again, extra, "connections");
    } else {
      SameBaseFields(source, entity);
    }
  }

  lemma SameBaseFields(source: Value, entity: Value)
    requires EntityReadable(source) && EntityReadable(entity)
    requires forall k | k in BASE_KEYS :: BaseField(entity, k) == BaseField(source, k)
    ensures BaseFields(entity) == BaseFields(source)
  {
  }

  lemma EntitiesTwice(sources: seq<Value>, first: seq<Value>, extra: Shape, second: seq<Value>)
    requires BASE_KEYS !! Keys(extra)
    requires forall i | 0 <= i < |sources| :: EntityReadable(sources[i])
    requires forall i | 0 <= i < |first| :: EntityReadable(first[i])
    requires EntitiesOf(sources, first, extra) && EntitiesOf(first, second, extra)
    ensures second == first <==> forall i | 0 <= i < |sources| :: !HollowList(Get(sources[i], "connections"))
  {
    forall i | 0 <= i < |sources| ensures second[i] == first[i] <==> !HollowList(Get(sources[i], "connections")) {
      EntityTwice(sources[i], first[i], extra, second[i]);
    }
  }

  lemma EntityIsFixed(source: Value, entity: Value, extra: Shape)
    requires BASE_KEYS !! Keys(extra)
    requires EntityReadable(source) && EntityOf(source, entity, extra)
    requires EntityReadable(entity) && !HollowList(Get(source, "connections"))
    ensures EntityOf(entity, entity, extra)
  {
    var extras := ExtraFields(entity, extra);
    BaseFieldsTwice(source, entity, extra);
    SameBaseFields(source, entity);
    if extras == map[] {
      EmptyCopies(extra);
    } else {
      CopyIsFixed(source, extra, Wrap(extras));
    }
    forall k | k in Keys(extra) ensures Get(entity, k) == Get(RecordOf(extras), k) {
      EntityGet(source, entity, extra, k);
    }
    CopyDependsOnKeys(RecordOf(extras), entity, extra, Wrap(extras));
  }

  lemma LayoutGet(layout: Value, canonical: Value, k: string)
    requires LayoutOf(layout, canonical) && k in LAYOUT_KEYS
    ensures Get(canonical, k) == LayoutField(layout, k)
  {
    assert k != "entities" && Get(canonical, k) == Find(LayoutFields(layout), k);
  }

  /** A canonical layout is readable and has no hollow list. */
  lemma CanonicalIsSolid(layout: Value, canonical: Value)
    requires LayoutOf(layout, canonical)
    ensures Readable(canonical) && !Hollow(canonical)
  {
    BaseAndExtraKeysApart();
    LayoutGet(layout, canonical, "tiles");
    LayoutGet(layout, canonical, "expectedOutputs");
    TilesTwice(Get(layout, "tiles"));
    SelectAllTwice(Get(layout, "expectedOutputs"), OUTPUT_KEYS);
    var sources, entities := Get(layout, "entities").list, Get(canonical, "entities").list;
    forall i | 0 <= i < |entities| ensures EntityReadable(entities[i]) && !HollowList(Get(entities[i], "connections")) {
      EntityReadableAgain(sources[i], entities[i], ENTITY_EXTRA_SHAPE);
    }
  }

  lemma LayoutFieldsTwice(layout: Value, canonical: Value)
    requires LayoutOf(layout, canonical) && Readable(canonical)
    ensures LayoutField(canonical, "name") == LayoutField(layout, "name")
    ensures LayoutField(canonical, "description") == LayoutField(layout, "description")
    ensures LayoutField(canonical, "tiles") == LayoutField(layout, "tiles") <==> !HollowList(Get(layout, "tiles"))
    ensures LayoutField(canonical, "expectedOutputs") == LayoutField(layout, "expectedOutputs")
            <==> !HollowList(Get(layout, "expectedOutputs"))
  {
    forall k | k in LAYOUT_KEYS ensures Get(canonical, k) == LayoutField(layout, k) {
      LayoutGet(layout, canonical, k);
    }
    TilesTwice(Get(layout, "tiles"));
    SelectAllTwice(Get(layout, "expectedOutputs"), OUTPUT_KEYS);
  }

  lemma LayoutEntitiesTwice(layout: Value, once: Value, twice: Value)
    requires LayoutOf(layout, once) && LayoutOf(once, twice)
    ensures Get(twice, "entities") == Get(once, "entities") <==> !HollowConnections(layout)
  {
    BaseAndExtraKeysApart();
    EntitiesTwice(Get(layout, "entities").list, Get(once, "entities").list, ENTITY_EXTRA_SHAPE, Get(twice, "entities").list);
  }

  lemma LayoutEqual(layout: Value, once: Value, twice: Value)
    requires LayoutOf(layout, once) && LayoutOf(once, twice)
    ensures twice == once <==>
            Get(twice, "entities") == Get(once, "entities") && LayoutFields(once) == LayoutFields(layout)
  {
    if twice == once {
      forall k | k in LAYOUT_KEYS ensures LayoutField(once, k) == LayoutField(layout, k) {
        LayoutGet(layout, once, k);
        LayoutGet(once, twice, k);
      }
    }
  }

  /** The optional parts of two layouts agree exactly when they agree key by key. */
  lemma LayoutFieldsAgree(a: Value, b: Value)
    requires Readable(a) && Readable(b)
    ensures LayoutFields(a) == LayoutFields(b) <==> forall k | k in LAYOUT_KEYS :: LayoutField(a, k) == LayoutField(b, k)
  {
    if LayoutFields(a) == LayoutFields(b) {
      forall k | k in LAYOUT_KEYS ensures LayoutField(a, k) == LayoutField(b, k) {
        assert Find(LayoutFields(a), k) == LayoutField(a, k);
        assert Find(LayoutFields(b), k) == LayoutField(b, k);
      }
    }
  }

  lemma LayoutFieldsEqual(layout: Value, once: Value)
    requires LayoutOf(layout, once) && Readable(once)
    ensures LayoutFields(once) == LayoutFields(layout) <==>
            !HollowList(Get(layout, "tiles")) && !HollowList(Get(layout, "expectedOutputs"))
  {
    LayoutFieldsTwice(layout, once);
    LayoutFieldsAgree(once, layout);
  }

  /** The canonicaliser is idempotent on a layout exactly when no optional list of it
      is hollow; this holds for every enumeration order of either pass. */
  lemma CanonicalTwice(layout: Value, once: Value, twice: Value)
    requires LayoutOf(layout, once) && LayoutOf(once, twice)
    ensures twice == once <==> !Hollow(layout)
  {
    LayoutEntitiesTwice(layout, once, twice);
    LayoutFieldsEqual(layout, once);
    LayoutEqual(layout, once, twice);
  }

  /** Two passes always settle a layout, hollow or not. */
  lemma CanonicalSettles(layout: Value, once: Value, twice: Value, thrice: Value)
    requires LayoutOf(layout, once) && LayoutOf(once, twice) && LayoutOf(twice, thrice)
    ensures thrice == twice
  {
    CanonicalIsSolid(layout, once);
    CanonicalTwice(once, twice, thrice);
  }

  lemma EntitiesFixed(sources: seq<Value>, entities: seq<Value>, extra: Shape)
    requires BASE_KEYS !! Keys(extra)
    requires forall i | 0 <= i < |sources| :: EntityReadable(sources[i]) && !HollowList(Get(sources[i], "connections"))
    requires forall i | 0 <= i < |entities| :: EntityReadable(entities[i])
    requires EntitiesOf(sources, entities, extra)
    ensures EntitiesOf(entities, entities, extra)
  {
    forall i | 0 <= i < |entities| ensures EntityOf(entities[i], entities[i], extra) {
      EntityIsFixed(sources[i], entities[i], extra);
    }
  }

  /** A canonical layout of a layout without hollow lists is its own canonical form. */
  lemma CanonicalIsFixed(layout: Value, canonical: Value)
    requires LayoutOf(layout, canonical) && !Hollow(layout)
    ensures LayoutOf(canonical, canonical)
  {
    CanonicalIsSolid(layout, canonical);
    LayoutFieldsEqual(layout, canonical);
    BaseAndExtraKeysApart();
    EntitiesFixed(Get(layout, "entities").list, Get(canonical, "entities").list, ENTITY_EXTRA_SHAPE);
  }

  /** On its own canonical form the canonicaliser is the identity. */
  lemma FixedIsUnique(canonical: Value, again: Value)
    requires LayoutOf(canonical, canonical) && LayoutOf(canonical, again)
    ensures again == canonical
  {
    CanonicalIsSolid(canonical, canonical);
    CanonicalTwice(canonical, canonical, again);
  }

  // ------------------------------------------------------------------------ the method

  /** The loops over connections and expected outputs; `None` is a raised error. */
  method SelectedList(v: Value, keys: set<string>) returns (r: Option<Value>)
    ensures r.Some? <==> ConnectionsReadable(v)
    ensures r.Some? ==> r.value == SelectAll(v, keys)
  {
    if !Filled(v) {
      return Some(Nil);
    }
    var items: seq<Value> := [];
    for i := 0 to |v.list|
      invariant |items| == i
      invariant forall j | 0 <= j < i :: Indexable(v.list[j]) && items[j] == Select(v.list[j], keys)
    {
      if !Indexable(v.list[i]) {
        return None;
      }
      items := items + [Select(v.list[i], keys)];
    }
    r := Some(ListOf(items));
  }

  method TileList(v: Value) returns (r: Option<Value>)
    ensures r.Some? <==> TilesReadable(v)
    ensures r.Some? ==> r.value == Tiles(v)
  {
    if !Filled(v) {
      return Some(Nil);
    }
    var items: seq<Value> := [];
    for i := 0 to |v.list|
      invariant |items| == i
      invariant forall j | 0 <= j < i :: TileReadable(v.list[j]) && items[j] == Tile(v.list[j])
    {
      if !TileReadable(v.list[i]) {
        return None;
      }
      items := items + [Tile(v.list[i])];
    }
    r := Some(ListOf(items));
  }

  lemma ExtrasOfEntity(base: map<string, Value>, extras: Value, extra: Shape, entity: Value)
    requires BASE_KEYS !! Keys(extra) && base.Keys <= BASE_KEYS
    requires extras == Wrap(Fields(extras)) && Fields(extras).Keys <= Keys(extra)
    requires entity == RecordOf(base + Fields(extras))
    ensures ExtraFields(entity, extra) == Fields(extras) && Wrap(ExtraFields(entity, extra)) == extras
  {
  }

  /** The constructor and the optional keys of an entity; `None` is a raised error. */
  method CanonicalBase(source: Value) returns (r: Option<map<string, Value>>)
    ensures r.Some? <==> EntityReadable(source)
    ensures r.Some? ==> r.value == BaseFields(source)
  {
    if !source.Table? || !Indexable(Get(source, "position")) {
      return None;
    }
    var connections := SelectedList(Get(source, "connections"), CONNECTION_KEYS);
    if connections.None? {
      return None;
    }
    r := Some(BaseRecord(source, connections.value));
    forall k ensures Find(r.value, k) == Find(BaseFields(source), k) {
      BaseRecordAt(source, k);
    }
    SameFinds(r.value, BaseFields(source));
  }

  function BaseRecord(source: Value, connections: Value): map<string, Value>
    requires source.Table? && Indexable(Get(source, "position"))
  {
    var placed := map["position" := Select(Get(source, "position"), POSITION_KEYS)];
    var named := Put(Put(placed, "entityNumber", Get(source, "entityNumber")), "prototype", Get(source, "prototype"));
    var turned := Put(Put(named, "direction", Get(source, "direction")), "quality", Get(source, "quality"));
    Put(Put(turned, "recipe", Get(source, "recipe")), "connections", connections)
  }

  lemma BaseRecordAt(source: Value, k: string)
    requires EntityReadable(source)
    ensures Find(BaseRecord(source, SelectAll(Get(source, "connections"), CONNECTION_KEYS)), k) == Find(BaseFields(source), k)
  {
    var connections := SelectAll(Get(source, "connections"), CONNECTION_KEYS);
    var placed := map["position" := Select(Get(source, "position"), POSITION_KEYS)];
    var numbered := Put(placed, "entityNumber", Get(source, "entityNumber"));
    var named := Put(numbered, "prototype", Get(source, "prototype"));
    var facing := Put(named, "direction", Get(source, "direction"));
    var turned := Put(facing, "quality", Get(source, "quality"));
    var made := Put(turned, "recipe", Get(source, "recipe"));
    PutFinds(placed, "entityNumber", Get(source, "entityNumber"), k);
    PutFinds(numbered, "prototype", Get(source, "prototype"), k);
    PutFinds(named, "direction", Get(source, "direction"), k);
    PutFinds(facing, "quality", Get(source, "quality"), k);
    PutFinds(turned, "recipe", Get(source, "recipe"), k);
    PutFinds(made, "connections", connections, k);
    assert Find(BaseFields(source), k) == if k in BASE_KEYS then BaseField(source, k) else Nil;
  }

  lemma PutFinds(fields: map<string, Value>, key: string, v: Value, k: string)
    ensures Find(Put(fields, key, v), k) == if k == key && v != Nil then v else Find(fields, k)
  {
  }

  lemma SameFinds(a: map<string, Value>, b: map<string, Value>)
    requires forall k | k in a :: a[k] != Nil
    requires forall k | k in b :: b[k] != Nil
    requires forall k :: Find(a, k) == Find(b, k)
    ensures a == b
  {
    forall k ensures k in a <==> k in b {
      assert Find(a, k) == Find(b, k);
    }
    forall k | k in a ensures a[k] == b[k] {
      assert Find(a, k) == Find(b, k);
    }
  }

  method CanonicalEntity(source: Value, extra: Shape) returns (r: Option<Value>)
    requires Separate(extra) && BASE_KEYS !! Keys(extra)
    ensures r.Some? <==> EntityReadable(source)
    ensures r.Some? ==> EntityOf(source, r.value, extra)
  {
    var base := CanonicalBase(source);
    if base.None? {
      return None;
    }
    var extras := CopyShape(source, extra);
    var entity := RecordOf(base.value + Fields(extras));
    ExtrasOfEntity(base.value, extras, extra, entity);
    r := Some(entity);
  }

  method CanonicalEntities(sources: seq<Value>, extra: Shape) returns (r: Option<seq<Value>>)
    requires Separate(extra) && BASE_KEYS !! Keys(extra)
    ensures r.Some? <==> forall i | 0 <= i < |sources| :: EntityReadable(sources[i])
    ensures r.Some? ==> EntitiesOf(sources, r.value, extra)
  {
    var entities: seq<Value> := [];
    for i := 0 to |sources|
      invariant |entities| == i
      invariant forall j | 0 <= j < i :: EntityReadable(sources[j]) && EntityOf(sources[j], entities[j], extra)
    {
      var entity := CanonicalEntity(sources[i], extra);
      if entity.None? {
        return None;
      }
      entities := entities + [entity.value];
    }
    r := Some(entities);
  }

  /** `canonical_layout`; `None` is a raised error. */
  method CanonicalLayout(layout: Value) returns (r: Option<Value>)
    requires layout.Table?
    ensures r.Some? <==> Readable(layout)
    ensures r.Some? ==> LayoutOf(layout, r.value)
  {
    WhitelistIsSeparate();
    BaseAndExtraKeysApart();
    if !Get(layout, "entities").Table? {
      return None;
    }
    var entities := CanonicalEntities(Get(layout, "entities").list, ENTITY_EXTRA_SHAPE);
    var tiles := TileList(Get(layout, "tiles"));
    var outputs := SelectedList(Get(layout, "expectedOutputs"), OUTPUT_KEYS);
    if entities.None? || tiles.None? || outputs.None? {
      return None;
    }
    r := Some(LayoutRecord(layout, entities.value, tiles.value, outputs.value));
    LayoutRecordIsStored(layout, entities.value);
  }

  function LayoutRecord(layout: Value, entities: seq<Value>, tiles: Value, outputs: Value): Value
    requires layout.Table?
  {
    var fields := Put(map["entities" := ListOf(entities)], "name", Get(layout, "name"));
    var described := Put(fields, "description", Get(layout, "description"));
    RecordOf(Put(Put(described, "tiles", tiles), "expectedOutputs", outputs))
  }

  lemma LayoutRecordAt(layout: Value, entities: seq<Value>, k: string)
    requires Readable(layout)
    ensures Find(LayoutRecord(layout, entities, Tiles(Get(layout, "tiles")), SelectAll(Get(layout, "expectedOutputs"), OUTPUT_KEYS)).fields, k)
            == Find(LayoutFields(layout)["entities" := ListOf(entities)], k)
  {
  }

  lemma LayoutRecordIsStored(layout: Value, entities: seq<Value>)
    requires Readable(layout)
    ensures LayoutRecord(layout, entities, Tiles(Get(layout, "tiles")), SelectAll(Get(layout, "expectedOutputs"), OUTPUT_KEYS))
            == RecordOf(LayoutFields(layout)["entities" := ListOf(entities)])
  {
    var record := LayoutRecord(layout, entities, Tiles(Get(layout, "tiles")), SelectAll(Get(layout, "expectedOutputs"), OUTPUT_KEYS));
    var stored := LayoutFields(layout)["entities" := ListOf(entities)];
    forall k ensures Find(record.fields, k) == Find(stored, k) {
      LayoutRecordAt(layout, entities, k);
    }
    SameFinds(record.fields, stored);
  }
}
