/** The stored form of a layout with every key and every cap written out: a second account
    of the canonicaliser, which the whitelist of shapes is proved to agree with. */
module Whitelist {
  import opened LuaValues
  import opened Canonical
  import opened Layouts

  // ------------------------------------------------------------------------ the vocabulary

  /** Strings, numbers and booleans are kept, everything else reads as nil. */
  function Plain(v: Value): Value {
    if v.Str? || v.Num? || v.Bool? then v else Nil
  }

  /** Nil, or a record with at least one of the keys and no other. */
  ghost predicate Only(copy: Value, keys: set<string>) {
    || copy == Nil
    || (copy.Table? && copy.list == [] && copy.border == 0 && copy.fields != map[] && copy.fields.Keys <= keys
        && forall k | k in copy.fields :: copy.fields[k] != Nil)
  }

  ghost predicate Kept(source: Value, copy: Value, keys: set<string>) {
    forall k | k in keys :: Lookup(copy, k) == Plain(Lookup(source, k))
  }

  /** The first `max` entries, each copied; an entry with nothing to copy becomes an empty table. */
  ghost predicate ListKept(source: Value, max: nat, copied: (Value, Value) -> bool, copy: Value) {
    if !source.Table? || source.list == [] then copy == Nil
    else
      && copy.Table? && copy == ListOf(copy.list)
      && |copy.list| == (if |source.list| < max then |source.list| else max)
      && forall i | 0 <= i < |copy.list| :: EntryKept(source.list[i], copied, copy.list[i])
  }

  ghost predicate EntryKept(source: Value, copied: (Value, Value) -> bool, copy: Value) {
    copy != Nil && (copied(source, copy) || (copy == EMPTY_TABLE && copied(source, Nil)))
  }

  // ------------------------------------------------------------------------- the whitelist

  ghost predicate SignalKept(source: Value, copy: Value) {
    if !source.Table? then copy == Nil
    else Only(copy, {"type", "name", "quality"}) && Kept(source, copy, {"type", "name", "quality"})
  }

  ghost predicate ConditionKept(source: Value, copy: Value) {
    if !source.Table? then copy == Nil
    else
      && Only(copy, {"comparator", "constant", "firstSignal", "secondSignal"})
      && Kept(source, copy, {"comparator", "constant"})
      && SignalKept(Lookup(source, "firstSignal"), Lookup(copy, "firstSignal"))
      && SignalKept(Lookup(source, "secondSignal"), Lookup(copy, "secondSignal"))
  }

  ghost predicate ArithmeticKept(source: Value, copy: Value) {
    if !source.Table? then copy == Nil
    else
      && Only(copy, {"operation", "firstConstant", "secondConstant", "firstSignal", "secondSignal", "outputSignal"})
      && Kept(source, copy, {"operation", "firstConstant", "secondConstant"})
      && SignalKept(Lookup(source, "firstSignal"), Lookup(copy, "firstSignal"))
      && SignalKept(Lookup(source, "secondSignal"), Lookup(copy, "secondSignal"))
      && SignalKept(Lookup(source, "outputSignal"), Lookup(copy, "outputSignal"))
  }

  ghost predicate DeciderConditionKept(source: Value, copy: Value) {
    if !source.Table? then copy == Nil
    else
      && Only(copy, {"comparator", "constant", "compareType", "firstSignal", "secondSignal"})
      && Kept(source, copy, {"comparator", "constant", "compareType"})
      && SignalKept(Lookup(source, "firstSignal"), Lookup(copy, "firstSignal"))
      && SignalKept(Lookup(source, "secondSignal"), Lookup(copy, "secondSignal"))
  }

  ghost predicate DeciderOutputKept(source: Value, copy: Value) {
    if !source.Table? then copy == Nil
    else
      && Only(copy, {"constant", "copyCountFromInput", "signal"})
      && Kept(source, copy, {"constant", "copyCountFromInput"})
      && SignalKept(Lookup(source, "signal"), Lookup(copy, "signal"))
  }

  ghost predicate DeciderKept(source: Value, copy: Value) {
    if !source.Table? then copy == Nil
    else
      && Only(copy, {"conditions", "outputs"})
      && ListKept(Lookup(source, "conditions"), 16, DeciderConditionKept, Lookup(copy, "conditions"))
      && ListKept(Lookup(source, "outputs"), 16, DeciderOutputKept, Lookup(copy, "outputs"))
  }

  ghost predicate SectionFilterKept(source: Value, copy: Value) {
    if !source.Table? then copy == Nil
    else Only(copy, {"type", "name", "quality", "count"}) && Kept(source, copy, {"type", "name", "quality", "count"})
  }

  ghost predicate SectionKept(source: Value, copy: Value) {
    if !source.Table? then copy == Nil
    else
      && Only(copy, {"active", "filters"})
      && Kept(source, copy, {"active"})
      && ListKept(Lookup(source, "filters"), 40, SectionFilterKept, Lookup(copy, "filters"))
  }

  ghost predicate ControlKept(source: Value, copy: Value) {
    if !source.Table? then copy == Nil
    else
      && Only(copy, {"circuitEnabled", "connectToLogisticNetwork", "readContents", "readMode", "readIngredients",
                     "readWorking", "setRecipe", "setFilters", "setStackSize", "setRequests"}
                    + {"enabledCondition", "logisticCondition", "workingSignal", "stackSizeSignal", "arithmetic", "decider"}
                    + {"sections"})
      && Kept(source, copy, {"circuitEnabled", "connectToLogisticNetwork", "readContents", "readMode", "readIngredients",
                             "readWorking", "setRecipe", "setFilters", "setStackSize", "setRequests"})
      && ConditionKept(Lookup(source, "enabledCondition"), Lookup(copy, "enabledCondition"))
      && ConditionKept(Lookup(source, "logisticCondition"), Lookup(copy, "logisticCondition"))
      && SignalKept(Lookup(source, "workingSignal"), Lookup(copy, "workingSignal"))
      && SignalKept(Lookup(source, "stackSizeSignal"), Lookup(copy, "stackSizeSignal"))
      && ArithmeticKept(Lookup(source, "arithmetic"), Lookup(copy, "arithmetic"))
      && DeciderKept(Lookup(source, "decider"), Lookup(copy, "decider"))
      && ListKept(Lookup(source, "sections"), 8, SectionKept, Lookup(copy, "sections"))
  }

  ghost predicate FilterKept(source: Value, copy: Value) {
    if !source.Table? then copy == Nil
    else Only(copy, {"name", "quality"}) && Kept(source, copy, {"name", "quality"})
  }

  ghost predicate RequestFilterKept(source: Value, copy: Value) {
    if !source.Table? then copy == Nil
    else Only(copy, {"name", "quality", "min", "max"}) && Kept(source, copy, {"name", "quality", "min", "max"})
  }

  /** Module counts: numbers only, eight kinds of them, all if there are no more. */
  ghost predicate ItemsKept(source: Value, copy: Value) {
    if !source.Table? then copy == Nil
    else
      var numbers := set k | k in source.fields && source.fields[k].Num?;
      && Only(copy, numbers)
      && (copy.Table? ==> forall k | k in copy.fields :: copy.fields[k] == source.fields[k])
      && (if copy.Table? then |copy.fields| else 0) == (if |numbers| < 8 then |numbers| else 8)
  }

  ghost predicate ExtrasKept(source: Value, entity: Value) {
    && Kept(source, entity, {"filterMode", "inputPriority", "outputPriority", "requestFromBuffers"})
    && ControlKept(Lookup(source, "control"), Lookup(entity, "control"))
    && ListKept(Lookup(source, "filters"), 32, FilterKept, Lookup(entity, "filters"))
    && ListKept(Lookup(source, "requestFilters"), 40, RequestFilterKept, Lookup(entity, "requestFilters"))
    && ItemsKept(Lookup(source, "items"), Lookup(entity, "items"))
  }

  // ---------------------------------------------------------------------- the stored form

  /** A record of exactly the named fields the source has. */
  ghost predicate FieldsKept(source: Value, copy: Value, keys: set<string>) {
    && copy.Table? && copy.list == [] && copy.border == 0 && copy.fields.Keys <= keys
    && (forall k | k in copy.fields :: copy.fields[k] != Nil)
    && forall k | k in keys :: Lookup(copy, k) == Lookup(source, k)
  }

  /** A list that `#` finds entries in keeps those `ipairs` visits; any other is dropped. */
  ghost predicate RowsKept(source: Value, copy: Value, keys: set<string>) {
    if source.Table? && source.border > 0
    then
      && copy.Table? && copy == ListOf(copy.list) && |copy.list| == |source.list|
      && forall i | 0 <= i < |copy.list| :: FieldsKept(source.list[i], copy.list[i], keys)
    else copy == Nil
  }

  ghost predicate TileKept(source: Value, copy: Value) {
    && copy.Table? && copy.list == [] && copy.border == 0 && copy.fields.Keys <= {"prototype", "position"}
    && (forall k | k in copy.fields :: copy.fields[k] != Nil)
    && Lookup(copy, "prototype") == Lookup(source, "prototype")
    && FieldsKept(Lookup(source, "position"), Lookup(copy, "position"), {"x", "y"})
  }

  ghost predicate TilesKept(source: Value, copy: Value) {
    if source.Table? && source.border > 0
    then
      && copy.Table? && copy == ListOf(copy.list) && |copy.list| == |source.list|
      && forall i | 0 <= i < |copy.list| :: TileKept(source.list[i], copy.list[i])
    else copy == Nil
  }

  ghost predicate BaseKept(source: Value, entity: Value) {
    && (forall k | k in {"entityNumber", "prototype", "direction", "quality", "recipe"} :: Lookup(entity, k) == Lookup(source, k))
    && FieldsKept(Lookup(source, "position"), Lookup(entity, "position"), {"x", "y"})
    && RowsKept(Lookup(source, "connections"), Lookup(entity, "connections"), {"toEntityNumber", "wire", "fromConnectorId", "toConnectorId"})
  }

  ghost predicate EntityKept(source: Value, entity: Value) {
    && entity.Table? && entity.list == [] && entity.border == 0
    && entity.fields.Keys <= {"entityNumber", "prototype", "position", "direction", "quality", "recipe", "connections"}
                             + {"filterMode", "inputPriority", "outputPriority", "requestFromBuffers"}
                             + {"control", "filters", "requestFilters", "items"}
    && (forall k | k in entity.fields :: entity.fields[k] != Nil)
    && BaseKept(source, entity)
    && ExtrasKept(source, entity)
  }

  ghost predicate LayoutKept(layout: Value, canonical: Value) {
    && canonical.Table? && canonical.list == [] && canonical.border == 0
    && canonical.fields.Keys <= {"name", "description", "entities", "tiles", "expectedOutputs"}
    && (forall k | k in canonical.fields :: canonical.fields[k] != Nil)
    && Lookup(canonical, "name") == Lookup(layout, "name")
    && Lookup(canonical, "description") == Lookup(layout, "description")
    && TilesKept(Lookup(layout, "tiles"), Lookup(canonical, "tiles"))
    && RowsKept(Lookup(layout, "expectedOutputs"), Lookup(canonical, "expectedOutputs"), {"type", "name", "perSecond"})
    && EntitiesKept(Lookup(layout, "entities"), Lookup(canonical, "entities"))
  }

  ghost predicate EntitiesKept(source: Value, copy: Value) {
    && source.Table? && copy.Table? && copy == ListOf(copy.list) && |copy.list| == |source.list|
    && forall i | 0 <= i < |copy.list| :: EntityKept(source.list[i], copy.list[i])
  }

  /** Values whose fields may be read: reading from anything else raises. */
  predicate MayBeRead(v: Value) {
    v.Table? || v.Str?
  }

  /** Nothing the canonicaliser reads from the layout raises. */
  ghost predicate ReadsWithoutError(layout: Value) {
    && layout.Table? && Lookup(layout, "entities").Table?
    && (forall e | e in Lookup(layout, "entities").list :: EntityReads(e))
    && (HasEntries(Lookup(layout, "tiles")) ==>
          forall t | t in Lookup(layout, "tiles").list :: t.Table? && MayBeRead(Lookup(t, "position")))
    && (HasEntries(Lookup(layout, "expectedOutputs")) ==> forall o | o in Lookup(layout, "expectedOutputs").list :: MayBeRead(o))
  }

  ghost predicate EntityReads(e: Value) {
    && e.Table? && MayBeRead(Lookup(e, "position"))
    && (HasEntries(Lookup(e, "connections")) ==> forall c | c in Lookup(e, "connections").list :: MayBeRead(c))
  }

  predicate HasEntries(v: Value) {
    v.Table? && v.border > 0
  }

  // --------------------------------------------------------------------- agreement, by shape

  lemma OnlyMeans(copy: Value, keys: set<string>)
    ensures Only(copy, keys) <==>
            copy == Wrap(Fields(copy)) && Fields(copy).Keys <= keys && forall k | k in Fields(copy) :: Fields(copy)[k] != Nil
  {
  }

  lemma KeptMeans(source: Value, copy: Value, names: seq<string>)
    requires source.Table?
    ensures Kept(source, copy, Elements(names)) <==> forall k | k in names :: Lookup(copy, k) == ScalarCopy(Get(source, k))
  {
    if Kept(source, copy, Elements(names)) {
      forall k | k in names ensures Lookup(copy, k) == ScalarCopy(Get(source, k)) {
        assert k in Elements(names);
      }
    }
  }

  /** A shape read key by key. */
  lemma ShapeMeans(source: Value, shape: Shape, copy: Value)
    requires source.Table?
    ensures CopyOf(source, shape, copy) <==>
            && Only(copy, Keys(shape))
            && Kept(source, copy, Elements(shape.scalars))
            && (forall k | k in shape.objects :: CopyOf(Lookup(source, k), shape.objects[k], Lookup(copy, k)))
            && (forall k | k in shape.arrays :: ArrayCopyOf(Lookup(source, k), shape.arrays[k], Lookup(copy, k)))
            && (forall k | k in shape.counts :: CountsCopyOf(Lookup(source, k), shape.counts[k], Lookup(copy, k)))
  {
    OnlyMeans(copy, Keys(shape));
    KeptMeans(source, copy, shape.scalars);
  }

  lemma FlatKept(source: Value, names: seq<string>, copy: Value)
    ensures CopyOf(source, Scalars(names), copy) <==>
            if !source.Table? then copy == Nil else Only(copy, Elements(names)) && Kept(source, copy, Elements(names))
  {
    if source.Table? {
      ShapeMeans(source, Scalars(names), copy);
      assert Keys(Scalars(names)) == Elements(names);
    }
  }

  lemma SignalAgrees(source: Value, copy: Value)
    ensures CopyOf(source, SIGNAL_SHAPE, copy) <==> SignalKept(source, copy)
  {
    FlatKept(source, ["type", "name", "quality"], copy);
    assert Elements(["type", "name", "quality"]) == {"type", "name", "quality"};
  }

  /** A shape with scalars and nested signals only. */
  lemma SignalsKept(source: Value, shape: Shape, copy: Value)
    requires source.Table? && shape.arrays == map[] && shape.counts == map[]
    requires forall k | k in shape.objects :: shape.objects[k] == SIGNAL_SHAPE
    ensures CopyOf(source, shape, copy) <==>
            && Only(copy, Elements(shape.scalars) + shape.objects.Keys)
            && Kept(source, copy, Elements(shape.scalars))
            && SignalsAt(source, copy, shape.objects.Keys)
  {
    ShapeMeans(source, shape, copy);
    assert Keys(shape) == Elements(shape.scalars) + shape.objects.Keys;
    forall k | k in shape.objects
      ensures CopyOf(Lookup(source, k), shape.objects[k], Lookup(copy, k)) <==> SignalKept(Lookup(source, k), Lookup(copy, k))
    {
      SignalAgrees(Lookup(source, k), Lookup(copy, k));
    }
  }

  ghost predicate SignalsAt(source: Value, copy: Value, keys: set<string>) {
    forall k | k in keys :: SignalKept(Lookup(source, k), Lookup(copy, k))
  }

  lemma ConditionAgrees(source: Value, copy: Value)
    ensures CopyOf(source, CONDITION_SHAPE, copy) <==> ConditionKept(source, copy)
  {
    if source.Table? {
      SignalsKept(source, CONDITION_SHAPE, copy);
      assert Elements(CONDITION_SHAPE.scalars) == {"comparator", "constant"};
      assert CONDITION_SHAPE.objects.Keys == {"firstSignal", "secondSignal"};
      assert {"comparator", "constant"} + {"firstSignal", "secondSignal"} == {"comparator", "constant", "firstSignal", "secondSignal"};
    }
  }

  lemma ThreeSignals(source: Value, copy: Value, a: string, b: string, c: string)
    ensures SignalsAt(source, copy, {a, b, c}) <==>
            && SignalKept(Lookup(source, a), Lookup(copy, a))
            && SignalKept(Lookup(source, b), Lookup(copy, b))
            && SignalKept(Lookup(source, c), Lookup(copy, c))
  {
  }

  lemma ArithmeticParts()
    ensures Elements(ARITHMETIC_SHAPE.scalars) == {"operation", "firstConstant", "secondConstant"}
    ensures ARITHMETIC_SHAPE.objects.Keys == {"firstSignal", "secondSignal", "outputSignal"}
    ensures forall k | k in ARITHMETIC_SHAPE.objects :: ARITHMETIC_SHAPE.objects[k] == SIGNAL_SHAPE
    ensures {"operation", "firstConstant", "secondConstant"} + {"firstSignal", "secondSignal", "outputSignal"}
         == {"operation", "firstConstant", "secondConstant", "firstSignal", "secondSignal", "outputSignal"}
  {
  }

  lemma ArithmeticAgrees(source: Value, copy: Value)
    ensures CopyOf(source, ARITHMETIC_SHAPE, copy) <==> ArithmeticKept(source, copy)
  {
    if source.Table? {
      ArithmeticParts();
      SignalsKept(source, ARITHMETIC_SHAPE, copy);
      ThreeSignals(source, copy, "firstSignal", "secondSignal", "outputSignal");
    }
  }

  lemma DeciderKeysApart()
    ensures "conditions" != "outputs"
  {
    assert |"conditions"| != |"outputs"|;
  }

  const DECIDER_CONDITION := Shape(
    ["comparator", "constant", "compareType"],
    map["firstSignal" := SIGNAL_SHAPE, "secondSignal" := SIGNAL_SHAPE], map[], map[])

  lemma DeciderConditionParts()
    ensures DECIDER_SHAPE.arrays["conditions"].shape == DECIDER_CONDITION
    ensures Elements(DECIDER_CONDITION.scalars) == {"comparator", "constant", "compareType"}
    ensures DECIDER_CONDITION.objects.Keys == {"firstSignal", "secondSignal"}
    ensures {"comparator", "constant", "compareType"} + {"firstSignal", "secondSignal"}
         == {"comparator", "constant", "compareType", "firstSignal", "secondSignal"}
  {
    DeciderKeysApart();
  }

  lemma DeciderConditionAgrees(source: Value, copy: Value)
    ensures CopyOf(source, DECIDER_SHAPE.arrays["conditions"].shape, copy) <==> DeciderConditionKept(source, copy)
  {
    DeciderConditionParts();
    if source.Table? {
      SignalsKept(source, DECIDER_CONDITION, copy);
      ThreeSignals(source, copy, "firstSignal", "secondSignal", "secondSignal");
      assert {"firstSignal", "secondSignal", "secondSignal"} == {"firstSignal", "secondSignal"};
    }
  }

  lemma DeciderOutputAgrees(source: Value, copy: Value)
    ensures CopyOf(source, DECIDER_SHAPE.arrays["outputs"].shape, copy) <==> DeciderOutputKept(source, copy)
  {
    var shape := DECIDER_SHAPE.arrays["outputs"].shape;
    DeciderKeysApart();
    if source.Table? {
      SignalsKept(source, shape, copy);
      assert Elements(shape.scalars) == {"constant", "copyCountFromInput"};
      assert shape.objects.Keys == {"signal"};
      assert {"constant", "copyCountFromInput"} + {"signal"} == {"constant", "copyCountFromInput", "signal"};
    }
  }

  /** The predicate says of an entry what its shape does. */
  ghost predicate Describes(shape: Shape, copied: (Value, Value) -> bool) {
    forall source, copy :: copied(source, copy) <==> CopyOf(source, shape, copy)
  }

  lemma ArrayAgrees(source: Value, spec: ArraySpec, copied: (Value, Value) -> bool, copy: Value)
    requires spec.max > 0 && Describes(spec.shape, copied)
    ensures ArrayCopyOf(source, spec, copy) <==> ListKept(source, spec.max, copied, copy)
  {
    forall source0, copy0 ensures ItemCopyOf(source0, spec.shape, copy0) <==> EntryKept(source0, copied, copy0) {
      assert copied(source0, copy0) <==> CopyOf(source0, spec.shape, copy0);
      assert copied(source0, Nil) <==> CopyOf(source0, spec.shape, Nil);
    }
  }

  lemma DeciderAgrees(source: Value, copy: Value)
    ensures CopyOf(source, DECIDER_SHAPE, copy) <==> DeciderKept(source, copy)
  {
    if source.Table? {
      DeciderKeysApart();
      ShapeMeans(source, DECIDER_SHAPE, copy);
      forall s, c ensures DeciderConditionKept(s, c) <==> CopyOf(s, DECIDER_SHAPE.arrays["conditions"].shape, c) {
        DeciderConditionAgrees(s, c);
      }
      forall s, c ensures DeciderOutputKept(s, c) <==> CopyOf(s, DECIDER_SHAPE.arrays["outputs"].shape, c) {
        DeciderOutputAgrees(s, c);
      }
      ArrayAgrees(Lookup(source, "conditions"), DECIDER_SHAPE.arrays["conditions"], DeciderConditionKept, Lookup(copy, "conditions"));
      ArrayAgrees(Lookup(source, "outputs"), DECIDER_SHAPE.arrays["outputs"], DeciderOutputKept, Lookup(copy, "outputs"));
      assert Keys(DECIDER_SHAPE) == {"conditions", "outputs"};
    }
  }

  lemma SectionFilterAgrees(source: Value, copy: Value)
    ensures CopyOf(source, SECTION_SHAPE.arrays["filters"].shape, copy) <==> SectionFilterKept(source, copy)
  {
    FlatKept(source, ["type", "name", "quality", "count"], copy);
    assert Elements(["type", "name", "quality", "count"]) == {"type", "name", "quality", "count"};
  }

  lemma SectionAgrees(source: Value, copy: Value)
    ensures CopyOf(source, SECTION_SHAPE, copy) <==> SectionKept(source, copy)
  {
    if source.Table? {
      ShapeMeans(source, SECTION_SHAPE, copy);
      forall s, c ensures SectionFilterKept(s, c) <==> CopyOf(s, SECTION_SHAPE.arrays["filters"].shape, c) {
        SectionFilterAgrees(s, c);
      }
      ArrayAgrees(Lookup(source, "filters"), SECTION_SHAPE.arrays["filters"], SectionFilterKept, Lookup(copy, "filters"));
      assert Elements(SECTION_SHAPE.scalars) == {"active"};
      assert Keys(SECTION_SHAPE) == {"active", "filters"};
    }
  }

  lemma FilterAgrees(source: Value, copy: Value)
    ensures CopyOf(source, Scalars(["name", "quality"]), copy) <==> FilterKept(source, copy)
  {
    FlatKept(source, ["name", "quality"], copy);
    assert Elements(["name", "quality"]) == {"name", "quality"};
  }

  lemma RequestFilterAgrees(source: Value, copy: Value)
    ensures CopyOf(source, Scalars(["name", "quality", "min", "max"]), copy) <==> RequestFilterKept(source, copy)
  {
    FlatKept(source, ["name", "quality", "min", "max"], copy);
    assert Elements(["name", "quality", "min", "max"]) == {"name", "quality", "min", "max"};
  }

  lemma ItemsAgree(source: Value, copy: Value)
    ensures CountsCopyOf(source, 8, copy) <==> ItemsKept(source, copy)
  {
    if source.Table? {
      var numbers := set k | k in source.fields && source.fields[k].Num?;
      OnlyMeans(copy, numbers);
      assert Numbers(source).Keys == numbers;
      assert |Numbers(source)| == |numbers|;
    }
  }

  /** The nested shapes of `control`; their keys differ in length. */
  lemma ControlObjects()
    ensures CONTROL_SHAPE.objects.Keys
            == {"enabledCondition", "logisticCondition", "workingSignal", "stackSizeSignal", "arithmetic", "decider"}
    ensures CONTROL_SHAPE.objects["enabledCondition"] == CONDITION_SHAPE && CONTROL_SHAPE.objects["logisticCondition"] == CONDITION_SHAPE
    ensures CONTROL_SHAPE.objects["workingSignal"] == SIGNAL_SHAPE && CONTROL_SHAPE.objects["stackSizeSignal"] == SIGNAL_SHAPE
    ensures CONTROL_SHAPE.objects["arithmetic"] == ARITHMETIC_SHAPE && CONTROL_SHAPE.objects["decider"] == DECIDER_SHAPE
  {
    assert |"enabledCondition"| == 16 && |"logisticCondition"| == 17 && |"workingSignal"| == 13;
    assert |"stackSizeSignal"| == 15 && |"arithmetic"| == 10 && |"decider"| == 7;
  }

  lemma ControlScalars()
    ensures Elements(CONTROL_SHAPE.scalars)
            == {"circuitEnabled", "connectToLogisticNetwork", "readContents", "readMode", "readIngredients", "readWorking",
                "setRecipe", "setFilters", "setStackSize", "setRequests"}
  {
  }

  lemma ControlKeys()
    ensures Keys(CONTROL_SHAPE)
            == {"circuitEnabled", "connectToLogisticNetwork", "readContents", "readMode", "readIngredients",
                "readWorking", "setRecipe", "setFilters", "setStackSize", "setRequests"}
               + {"enabledCondition", "logisticCondition", "workingSignal", "stackSizeSignal", "arithmetic", "decider"}
               + {"sections"}
  {
    ControlScalars();
    ControlObjects();
    KeysJoin(CONTROL_SHAPE, Elements(CONTROL_SHAPE.scalars), CONTROL_SHAPE.objects.Keys, {"sections"});
  }

  lemma KeysJoin(shape: Shape, scalars: set<string>, objects: set<string>, arrays: set<string>)
    requires Elements(shape.scalars) == scalars && shape.objects.Keys == objects && shape.arrays.Keys == arrays
    requires shape.counts == map[]
    ensures Keys(shape) == scalars + objects + arrays
  {
  }

  ghost predicate AllControlKept(keys: set<string>, source: Value, copy: Value) {
    forall k | k in keys :: ControlObjectKept(k, Lookup(source, k), Lookup(copy, k))
  }

  ghost predicate ControlObjectsKept(source: Value, copy: Value) {
    && ConditionKept(Lookup(source, "enabledCondition"), Lookup(copy, "enabledCondition"))
    && ConditionKept(Lookup(source, "logisticCondition"), Lookup(copy, "logisticCondition"))
    && SignalKept(Lookup(source, "workingSignal"), Lookup(copy, "workingSignal"))
    && SignalKept(Lookup(source, "stackSizeSignal"), Lookup(copy, "stackSizeSignal"))
    && ArithmeticKept(Lookup(source, "arithmetic"), Lookup(copy, "arithmetic"))
    && DeciderKept(Lookup(source, "decider"), Lookup(copy, "decider"))
  }

  /** The nested table of one key, by the key. */
  ghost predicate ControlObjectKept(k: string, source: Value, copy: Value) {
    && (k == "enabledCondition" || k == "logisticCondition" ==> ConditionKept(source, copy))
    && (k == "workingSignal" || k == "stackSizeSignal" ==> SignalKept(source, copy))
    && (k == "arithmetic" ==> ArithmeticKept(source, copy))
    && (k == "decider" ==> DeciderKept(source, copy))
  }

  lemma ControlObjectAgrees(k: string, source: Value, copy: Value)
    requires k in CONTROL_SHAPE.objects
    ensures CopyOf(source, CONTROL_SHAPE.objects[k], copy) <==> ControlObjectKept(k, source, copy)
  {
    ControlObjects();
    ControlCase(k, source, copy);
    if |k| == 16 || |k| == 17 {
      ConditionAgrees(source, copy);
    } else if |k| == 13 || |k| == 15 {
      SignalAgrees(source, copy);
    } else if |k| == 10 {
      ArithmeticAgrees(source, copy);
    } else {
      DeciderAgrees(source, copy);
    }
  }

  /** Which of the six it is can be told by the length of the key. */
  lemma ControlCase(k: string, source: Value, copy: Value)
    requires k in {"enabledCondition", "logisticCondition", "workingSignal", "stackSizeSignal", "arithmetic", "decider"}
    ensures |k| in {7, 10, 13, 15, 16, 17}
    ensures |k| == 16 || |k| == 17 ==> (ControlObjectKept(k, source, copy) <==> ConditionKept(source, copy))
    ensures |k| == 16 ==> k == "enabledCondition"
    ensures |k| == 17 ==> k == "logisticCondition"
    ensures |k| == 13 || |k| == 15 ==> (ControlObjectKept(k, source, copy) <==> SignalKept(source, copy))
    ensures |k| == 13 ==> k == "workingSignal"
    ensures |k| == 15 ==> k == "stackSizeSignal"
    ensures |k| == 10 ==> k == "arithmetic" && (ControlObjectKept(k, source, copy) <==> ArithmeticKept(source, copy))
    ensures |k| == 7 ==> k == "decider" && (ControlObjectKept(k, source, copy) <==> DeciderKept(source, copy))
  {
  }

  lemma ControlObjectsByKey(source: Value, copy: Value)
    ensures (forall k | k in CONTROL_SHAPE.objects :: CopyOf(Lookup(source, k), CONTROL_SHAPE.objects[k], Lookup(copy, k)))
            <==> AllControlKept(CONTROL_SHAPE.objects.Keys, source, copy)
  {
    forall k | k in CONTROL_SHAPE.objects
      ensures CopyOf(Lookup(source, k), CONTROL_SHAPE.objects[k], Lookup(copy, k)) <==> ControlObjectKept(k, Lookup(source, k), Lookup(copy, k))
    {
      ControlObjectAgrees(k, Lookup(source, k), Lookup(copy, k));
    }
  }

  lemma ControlCases(source: Value, copy: Value)
    ensures AllControlKept({"enabledCondition", "logisticCondition", "workingSignal", "stackSizeSignal", "arithmetic", "decider"}, source, copy)
            <==> ControlObjectsKept(source, copy)
  {
    var keys := {"enabledCondition", "logisticCondition", "workingSignal", "stackSizeSignal", "arithmetic", "decider"};
    if ControlObjectsKept(source, copy) {
      forall k | k in keys ensures ControlObjectKept(k, Lookup(source, k), Lookup(copy, k)) {
        ControlCase(k, Lookup(source, k), Lookup(copy, k));
      }
    }
  }

  lemma ControlAgrees(source: Value, copy: Value)
    ensures CopyOf(source, CONTROL_SHAPE, copy) <==> ControlKept(source, copy)
  {
    if source.Table? {
      ShapeMeans(source, CONTROL_SHAPE, copy);
      ControlKeys();
      ControlScalars();
      ControlObjects();
      ControlObjectsByKey(source, copy);
      ControlCases(source, copy);
      forall s, c ensures SectionKept(s, c) <==> CopyOf(s, SECTION_SHAPE, c) {
        SectionAgrees(s, c);
      }
      ArrayAgrees(Lookup(source, "sections"), ArraySpec(8, SECTION_SHAPE), SectionKept, Lookup(copy, "sections"));
      assert CONTROL_SHAPE.arrays == map["sections" := ArraySpec(8, SECTION_SHAPE)];
    }
  }

  // ------------------------------------------------------------------ agreement, the layout

  lemma SelectAgrees(source: Value, keys: set<string>, copy: Value)
    requires Indexable(source)
    ensures copy == Select(source, keys) <==> FieldsKept(source, copy, keys)
  {
    var selected := Select(source, keys);
    assert forall k | k in keys :: Lookup(selected, k) == Lookup(source, k);
    if FieldsKept(source, copy, keys) {
      forall k ensures Find(copy.fields, k) == Find(selected.fields, k) {
        if k in keys {
          assert Lookup(copy, k) == Lookup(source, k);
        }
      }
      SameFinds(copy.fields, selected.fields);
    }
  }

  lemma SelectAllAgrees(source: Value, keys: set<string>, copy: Value)
    requires ConnectionsReadable(source)
    ensures copy == SelectAll(source, keys) <==> RowsKept(source, copy, keys)
  {
    if source.Table? && source.border > 0 {
      if copy.Table? && |copy.list| == |source.list| {
        forall i | 0 <= i < |copy.list| ensures copy.list[i] == Select(source.list[i], keys) <==> FieldsKept(source.list[i], copy.list[i], keys) {
          SelectAgrees(source.list[i], keys, copy.list[i]);
        }
        if RowsKept(source, copy, keys) {
          assert copy.list == SelectAll(source, keys).list;
        }
      }
    }
  }

  lemma TileAgrees(source: Value, copy: Value)
    requires TileReadable(source)
    ensures copy == Tile(source) <==> TileKept(source, copy)
  {
    var tile, position := Tile(source), Select(Get(source, "position"), POSITION_KEYS);
    assert "prototype" != "position" by { assert |"prototype"| == 9 && |"position"| == 8; }
    SelectAgrees(Get(source, "position"), POSITION_KEYS, Lookup(copy, "position"));
    SelectAgrees(Get(source, "position"), POSITION_KEYS, position);
    assert Lookup(tile, "position") == position && Lookup(tile, "prototype") == Get(source, "prototype");
    if TileKept(source, copy) {
      forall k ensures Find(copy.fields, k) == Find(tile.fields, k) {
        assert k in {"prototype", "position"} ==> Lookup(copy, k) == Lookup(tile, k);
      }
      SameFinds(copy.fields, tile.fields);
    }
  }

  lemma TilesAgree(source: Value, copy: Value)
    requires TilesReadable(source)
    ensures copy == Tiles(source) <==> TilesKept(source, copy)
  {
    if source.Table? && source.border > 0 {
      if copy.Table? && |copy.list| == |source.list| {
        forall i | 0 <= i < |copy.list| ensures copy.list[i] == Tile(source.list[i]) <==> TileKept(source.list[i], copy.list[i]) {
          TileAgrees(source.list[i], copy.list[i]);
        }
        if TilesKept(source, copy) {
          assert copy.list == Tiles(source).list;
        }
      }
    }
  }

  const EXTRA_SCALARS := {"filterMode", "inputPriority", "outputPriority", "requestFromBuffers"}

  lemma ExtraShape()
    ensures Elements(ENTITY_EXTRA_SHAPE.scalars) == EXTRA_SCALARS
    ensures ENTITY_EXTRA_SHAPE.objects == map["control" := CONTROL_SHAPE] && ENTITY_EXTRA_SHAPE.counts == map["items" := 8]
    ensures ENTITY_EXTRA_SHAPE.arrays.Keys == {"filters", "requestFilters"}
    ensures ENTITY_EXTRA_SHAPE.arrays["filters"] == ArraySpec(32, Scalars(["name", "quality"]))
    ensures ENTITY_EXTRA_SHAPE.arrays["requestFilters"] == ArraySpec(40, Scalars(["name", "quality", "min", "max"]))
    ensures Keys(ENTITY_EXTRA_SHAPE) == EXTRA_SCALARS + {"control", "filters", "requestFilters", "items"}
  {
    assert |"filters"| == 7 && |"requestFilters"| == 14;
  }

  /** Stored values are never nil. */
  ghost predicate Solid(v: Value) {
    v.Table? && forall k | k in v.fields :: v.fields[k] != Nil
  }

  lemma ExtraLookup(entity: Value, k: string)
    requires Solid(entity) && k in Keys(ENTITY_EXTRA_SHAPE)
    ensures Lookup(Wrap(ExtraFields(entity, ENTITY_EXTRA_SHAPE)), k) == Lookup(entity, k)
  {
  }

  lemma ExtraListsAgree(source: Value, entity: Value)
    ensures ArrayCopyOf(Lookup(source, "filters"), ArraySpec(32, Scalars(["name", "quality"])), Lookup(entity, "filters"))
            <==> ListKept(Lookup(source, "filters"), 32, FilterKept, Lookup(entity, "filters"))
    ensures ArrayCopyOf(Lookup(source, "requestFilters"), ArraySpec(40, Scalars(["name", "quality", "min", "max"])), Lookup(entity, "requestFilters"))
            <==> ListKept(Lookup(source, "requestFilters"), 40, RequestFilterKept, Lookup(entity, "requestFilters"))
  {
    forall s, c ensures FilterKept(s, c) <==> CopyOf(s, Scalars(["name", "quality"]), c) {
      FilterAgrees(s, c);
    }
    forall s, c ensures RequestFilterKept(s, c) <==> CopyOf(s, Scalars(["name", "quality", "min", "max"]), c) {
      RequestFilterAgrees(s, c);
    }
    ArrayAgrees(Lookup(source, "filters"), ArraySpec(32, Scalars(["name", "quality"])), FilterKept, Lookup(entity, "filters"));
    ArrayAgrees(Lookup(source, "requestFilters"), ArraySpec(40, Scalars(["name", "quality", "min", "max"])), RequestFilterKept,
                Lookup(entity, "requestFilters"));
  }

  /** What the shape asks of each of its keys. */
  ghost predicate ExtrasCopied(source: Value, copy: Value) {
    && Kept(source, copy, EXTRA_SCALARS)
    && CopyOf(Lookup(source, "control"), CONTROL_SHAPE, Lookup(copy, "control"))
    && ArrayCopyOf(Lookup(source, "filters"), ArraySpec(32, Scalars(["name", "quality"])), Lookup(copy, "filters"))
    && ArrayCopyOf(Lookup(source, "requestFilters"), ArraySpec(40, Scalars(["name", "quality", "min", "max"])), Lookup(copy, "requestFilters"))
    && CountsCopyOf(Lookup(source, "items"), 8, Lookup(copy, "items"))
  }

  lemma ExtraArraysByKey(source: Value, copy: Value)
    ensures (forall k | k in ENTITY_EXTRA_SHAPE.arrays :: ArrayCopyOf(Lookup(source, k), ENTITY_EXTRA_SHAPE.arrays[k], Lookup(copy, k)))
            <==> && ArrayCopyOf(Lookup(source, "filters"), ENTITY_EXTRA_SHAPE.arrays["filters"], Lookup(copy, "filters"))
                 && ArrayCopyOf(Lookup(source, "requestFilters"), ENTITY_EXTRA_SHAPE.arrays["requestFilters"], Lookup(copy, "requestFilters"))
  {
    assert ENTITY_EXTRA_SHAPE.arrays.Keys == {"filters", "requestFilters"};
  }

  lemma ExtrasByKey(source: Value, copy: Value)
    requires source.Table?
    ensures CopyOf(source, ENTITY_EXTRA_SHAPE, copy) <==> Only(copy, Keys(ENTITY_EXTRA_SHAPE)) && ExtrasCopied(source, copy)
  {
    ShapeMeans(source, ENTITY_EXTRA_SHAPE, copy);
    ExtraArraysByKey(source, copy);
    ExtraShape();
  }

  lemma ExtrasOfEntity(source: Value, entity: Value, copy: Value)
    requires Solid(entity) && copy == Wrap(ExtraFields(entity, ENTITY_EXTRA_SHAPE))
    ensures Only(copy, Keys(ENTITY_EXTRA_SHAPE)) && (ExtrasCopied(source, copy) <==> ExtrasCopied(source, entity))
  {
    ExtraShape();
    forall k | k in Keys(ENTITY_EXTRA_SHAPE) ensures Lookup(copy, k) == Lookup(entity, k) {
      ExtraLookup(entity, k);
    }
  }

  lemma ExtrasCopiedAreKept(source: Value, entity: Value)
    ensures ExtrasCopied(source, entity) <==> ExtrasKept(source, entity)
  {
    ControlAgrees(Lookup(source, "control"), Lookup(entity, "control"));
    ExtraListsAgree(source, entity);
    ItemsAgree(Lookup(source, "items"), Lookup(entity, "items"));
  }

  lemma ExtrasAgree(source: Value, entity: Value)
    requires source.Table? && Solid(entity)
    ensures CopyOf(source, ENTITY_EXTRA_SHAPE, Wrap(ExtraFields(entity, ENTITY_EXTRA_SHAPE))) <==> ExtrasKept(source, entity)
  {
    var copy := Wrap(ExtraFields(entity, ENTITY_EXTRA_SHAPE));
    ExtrasByKey(source, copy);
    ExtrasOfEntity(source, entity, copy);
    ExtrasCopiedAreKept(source, entity);
  }

  // ---------------------------------------------------------------------- agreement, entities

  lemma BaseAgrees(source: Value, entity: Value)
    requires EntityReadable(source)
    ensures (forall k | k in BASE_KEYS :: Lookup(entity, k) == BaseField(source, k)) <==> BaseKept(source, entity)
  {
    SelectAgrees(Get(source, "position"), POSITION_KEYS, Lookup(entity, "position"));
    SelectAllAgrees(Get(source, "connections"), CONNECTION_KEYS, Lookup(entity, "connections"));
    assert |"entityNumber"| == 12 && |"prototype"| == 9 && |"direction"| == 9 && |"quality"| == 7 && |"recipe"| == 6;
    assert |"position"| == 8 && |"connections"| == 11;
  }

  /** An entity as the union of its two halves, key by key. */
  lemma EntityByKey(source: Value, entity: Value, extra: Shape)
    requires EntityReadable(source) && Solid(entity) && BASE_KEYS !! Keys(extra)
    requires entity == RecordOf(BaseFields(source) + ExtraFields(entity, extra))
    ensures entity.list == [] && entity.border == 0 && entity.fields.Keys <= BASE_KEYS + Keys(extra)
    ensures forall k | k in BASE_KEYS :: Lookup(entity, k) == BaseField(source, k)
  {
    var base, extras := BaseFields(source), ExtraFields(entity, extra);
    forall k | k in BASE_KEYS ensures Lookup(entity, k) == BaseField(source, k) {
      assert k !in extras && Find(base, k) == BaseField(source, k);
    }
  }

  lemma EntityFromKeys(source: Value, entity: Value, extra: Shape)
    requires EntityReadable(source) && Solid(entity) && BASE_KEYS !! Keys(extra)
    requires entity.list == [] && entity.border == 0 && entity.fields.Keys <= BASE_KEYS + Keys(extra)
    requires forall k | k in BASE_KEYS :: Lookup(entity, k) == BaseField(source, k)
    ensures entity == RecordOf(BaseFields(source) + ExtraFields(entity, extra))
  {
    var base, extras := BaseFields(source), ExtraFields(entity, extra);
    forall k ensures Find(entity.fields, k) == Find(base + extras, k) {
      if k in BASE_KEYS {
        assert k !in extras && Lookup(entity, k) == BaseField(source, k);
      }
    }
    SameFinds(entity.fields, base + extras);
  }

  lemma EntityAgrees(source: Value, entity: Value)
    requires EntityReadable(source)
    ensures EntityOf(source, entity, ENTITY_EXTRA_SHAPE) <==> EntityKept(source, entity)
  {
    if EntityKept(source, entity) {
      KeptIsEntity(source, entity);
    }
    if EntityOf(source, entity, ENTITY_EXTRA_SHAPE) {
      EntityIsKept(source, entity);
    }
  }

  lemma KeptIsEntity(source: Value, entity: Value)
    requires EntityReadable(source) && EntityKept(source, entity)
    ensures EntityOf(source, entity, ENTITY_EXTRA_SHAPE)
  {
    BaseAndExtraKeysApart();
    ExtraShape();
    BaseAgrees(source, entity);
    ExtrasAgree(source, entity);
    EntityFromKeys(source, entity, ENTITY_EXTRA_SHAPE);
  }

  lemma EntityIsKept(source: Value, entity: Value)
    requires EntityReadable(source) && EntityOf(source, entity, ENTITY_EXTRA_SHAPE)
    ensures EntityKept(source, entity)
  {
    BaseAndExtraKeysApart();
    ExtraShape();
    EntityIsSolid(source, entity, ENTITY_EXTRA_SHAPE);
    EntityByKey(source, entity, ENTITY_EXTRA_SHAPE);
    BaseAgrees(source, entity);
    ExtrasAgree(source, entity);
  }

  lemma EntityIsSolid(source: Value, entity: Value, extra: Shape)
    requires EntityReadable(source) && EntityOf(source, entity, extra)
    ensures Solid(entity)
  {
    var extras := ExtraFields(entity, extra);
    assert forall k | k in Fields(Wrap(extras)) :: Fields(Wrap(extras))[k] != Nil;
  }

  // ------------------------------------------------------------------------- main result

  lemma LayoutByKey(layout: Value, canonical: Value)
    requires LayoutOf(layout, canonical)
    ensures canonical.list == [] && canonical.border == 0
    ensures canonical.fields.Keys <= {"name", "description", "entities", "tiles", "expectedOutputs"} && Solid(canonical)
    ensures Lookup(canonical, "name") == Lookup(layout, "name") && Lookup(canonical, "description") == Lookup(layout, "description")
    ensures Lookup(canonical, "tiles") == Tiles(Get(layout, "tiles"))
    ensures Lookup(canonical, "expectedOutputs") == SelectAll(Get(layout, "expectedOutputs"), OUTPUT_KEYS)
  {
    LayoutGet(layout, canonical, "name");
    LayoutGet(layout, canonical, "description");
    LayoutGet(layout, canonical, "tiles");
    LayoutGet(layout, canonical, "expectedOutputs");
  }

  lemma LayoutFromKeys(layout: Value, canonical: Value)
    requires Readable(layout) && LayoutKept(layout, canonical)
    ensures canonical == RecordOf(LayoutFields(layout)["entities" := ListOf(Get(canonical, "entities").list)])
  {
    var stored := LayoutFields(layout)["entities" := ListOf(Get(canonical, "entities").list)];
    TilesAgree(Get(layout, "tiles"), Lookup(canonical, "tiles"));
    SelectAllAgrees(Get(layout, "expectedOutputs"), OUTPUT_KEYS, Lookup(canonical, "expectedOutputs"));
    forall k ensures Find(canonical.fields, k) == Find(stored, k) {
      LayoutKeyAgrees(layout, canonical, k);
    }
    SameFinds(canonical.fields, stored);
  }

  lemma LayoutKeyAgrees(layout: Value, canonical: Value, k: string)
    requires Readable(layout) && LayoutKept(layout, canonical)
    requires Lookup(canonical, "tiles") == Tiles(Get(layout, "tiles"))
    requires Lookup(canonical, "expectedOutputs") == SelectAll(Get(layout, "expectedOutputs"), OUTPUT_KEYS)
    ensures Find(canonical.fields, k) == Find(LayoutFields(layout)["entities" := ListOf(Get(canonical, "entities").list)], k)
  {
    if k in LAYOUT_KEYS {
      assert Find(LayoutFields(layout), k) == LayoutField(layout, k);
    }
  }

  lemma EntityListsAgree(sources: seq<Value>, entities: seq<Value>)
    requires |entities| == |sources| && forall i | 0 <= i < |sources| :: EntityReadable(sources[i])
    ensures EntitiesOf(sources, entities, ENTITY_EXTRA_SHAPE) <==> forall i | 0 <= i < |entities| :: EntityKept(sources[i], entities[i])
  {
    forall i | 0 <= i < |entities| ensures EntityOf(sources[i], entities[i], ENTITY_EXTRA_SHAPE) <==> EntityKept(sources[i], entities[i]) {
      EntityAgrees(sources[i], entities[i]);
    }
  }

  lemma AllReadable(v: Value)
    ensures ConnectionsReadable(v) <==> (HasEntries(v) ==> forall c | c in v.list :: MayBeRead(c))
  {
    if HasEntries(v) && ConnectionsReadable(v) {
      forall c | c in v.list ensures MayBeRead(c) {
        var i :| 0 <= i < |v.list| && v.list[i] == c;
      }
    }
    if HasEntries(v) && forall c | c in v.list :: MayBeRead(c) {
      assert forall i | 0 <= i < |v.list| :: v.list[i] in v.list;
    }
  }

  lemma AllTilesReadable(v: Value)
    ensures TilesReadable(v) <==> (HasEntries(v) ==> forall t | t in v.list :: t.Table? && MayBeRead(Lookup(t, "position")))
  {
    if HasEntries(v) && TilesReadable(v) {
      forall t | t in v.list ensures t.Table? && MayBeRead(Lookup(t, "position")) {
        var i :| 0 <= i < |v.list| && v.list[i] == t;
        assert TileReadable(v.list[i]);
      }
    }
    if HasEntries(v) && forall t | t in v.list :: t.Table? && MayBeRead(Lookup(t, "position")) {
      assert forall i | 0 <= i < |v.list| :: v.list[i] in v.list;
    }
  }

  lemma AllEntitiesReadable(list: seq<Value>)
    ensures (forall i | 0 <= i < |list| :: EntityReadable(list[i])) <==> forall e | e in list :: EntityReads(e)
  {
    forall e ensures EntityReadable(e) <==> EntityReads(e) {
      if e.Table? {
        AllReadable(Get(e, "connections"));
      }
    }
    if forall i | 0 <= i < |list| :: EntityReadable(list[i]) {
      forall e | e in list ensures EntityReads(e) {
        var i :| 0 <= i < |list| && list[i] == e;
        assert EntityReadable(list[i]);
      }
    }
  }

  /** Which layouts the canonicaliser returns on. */
  lemma ReadableExactly(layout: Value)
    ensures Readable(layout) <==> ReadsWithoutError(layout)
  {
    if layout.Table? && Get(layout, "entities").Table? {
      AllEntitiesReadable(Get(layout, "entities").list);
      AllTilesReadable(Get(layout, "tiles"));
      AllReadable(Get(layout, "expectedOutputs"));
    }
  }

  /** The canonical forms of a layout are exactly the tables that keep, of it and of every
      nested table, the keys written out here, as many list entries as written out here, and
      nothing else. */
  lemma CanonicalWrittenOut(layout: Value, canonical: Value)
    requires Readable(layout)
    ensures LayoutOf(layout, canonical) <==> LayoutKept(layout, canonical)
  {
    if LayoutOf(layout, canonical) {
      LayoutByKey(layout, canonical);
      TilesAgree(Get(layout, "tiles"), Lookup(canonical, "tiles"));
      SelectAllAgrees(Get(layout, "expectedOutputs"), OUTPUT_KEYS, Lookup(canonical, "expectedOutputs"));
      EntityListsAgree(Get(layout, "entities").list, Get(canonical, "entities").list);
    }
    if LayoutKept(layout, canonical) {
      LayoutFromKeys(layout, canonical);
      EntityListsAgree(Get(layout, "entities").list, Get(canonical, "entities").list);
    }
  }

  /** In particular a layout that carries declared keys only, within the caps and without a
      hollow list, is its own and only canonical form: nothing of it is lost. */
  lemma DeclaredIsKept(layout: Value, canonical: Value)
    requires Readable(layout) && LayoutKept(layout, layout)
    ensures LayoutOf(layout, canonical) <==> canonical == layout
  {
    CanonicalWrittenOut(layout, layout);
    if LayoutOf(layout, canonical) {
      FixedIsUnique(layout, canonical);
    }
  }
}
