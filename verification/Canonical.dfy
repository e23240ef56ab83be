/** The canonicaliser: `copy_shape` and `canonical_layout`. A stored layout is
    rebuilt from a whitelist of declared keys. `pairs` enumerates in no promised
    order, and one loop (`counts`) stops after a bounded number of entries, so the
    result is a relation; the methods realise it for whatever order they meet. */
module Canonical {
  import opened LuaValues

  datatype Shape = Shape(
    scalars: seq<string>,
    objects: map<string, Shape>,
    arrays: map<string, ArraySpec>,
    counts: map<string, nat>)

  datatype ArraySpec = ArraySpec(max: nat, shape: Shape)

  function Scalars(keys: seq<string>): Shape {
    Shape(keys, map[], map[], map[])
  }

  const MAX_MODULE_KINDS := 8
  const MAX_FILTERS := 32
  const MAX_REQUEST_FILTERS := 40
  const MAX_SECTIONS := 8
  const MAX_SECTION_FILTERS := 40
  const MAX_DECIDER_CONDITIONS := 16
  const MAX_DECIDER_OUTPUTS := 16

  const SIGNAL_SHAPE := Scalars(["type", "name", "quality"])

  const CONDITION_SHAPE := Shape(
    ["comparator", "constant"],
    map["firstSignal" := SIGNAL_SHAPE, "secondSignal" := SIGNAL_SHAPE], map[], map[])

  const ARITHMETIC_SHAPE := Shape(
    ["operation", "firstConstant", "secondConstant"],
    map["firstSignal" := SIGNAL_SHAPE, "secondSignal" := SIGNAL_SHAPE, "outputSignal" := SIGNAL_SHAPE],
    map[], map[])

  const DECIDER_SHAPE := Shape(
    [], map[],
    map["conditions" := ArraySpec(MAX_DECIDER_CONDITIONS, Shape(
          ["comparator", "constant", "compareType"],
          map["firstSignal" := SIGNAL_SHAPE, "secondSignal" := SIGNAL_SHAPE], map[], map[])),
        "outputs" := ArraySpec(MAX_DECIDER_OUTPUTS, Shape(
          ["constant", "copyCountFromInput"], map["signal" := SIGNAL_SHAPE], map[], map[]))],
    map[])

  const SECTION_SHAPE := Shape(
    ["active"], map[],
    map["filters" := ArraySpec(MAX_SECTION_FILTERS, Scalars(["type", "name", "quality", "count"]))],
    map[])

  const CONTROL_SHAPE := Shape(
    ["circuitEnabled", "connectToLogisticNetwork", "readContents", "readMode", "readIngredients",
     "readWorking", "setRecipe", "setFilters", "setStackSize", "setRequests"],
    map["enabledCondition" := CONDITION_SHAPE, "logisticCondition" := CONDITION_SHAPE,
        "workingSignal" := SIGNAL_SHAPE, "stackSizeSignal" := SIGNAL_SHAPE,
        "arithmetic" := ARITHMETIC_SHAPE, "decider" := DECIDER_SHAPE],
    map["sections" := ArraySpec(MAX_SECTIONS, SECTION_SHAPE)],
    map[])

  const ENTITY_EXTRA_SHAPE := Shape(
    ["filterMode", "inputPriority", "outputPriority", "requestFromBuffers"],
    map["control" := CONTROL_SHAPE],
    map["filters" := ArraySpec(MAX_FILTERS, Scalars(["name", "quality"])),
        "requestFilters" := ArraySpec(MAX_REQUEST_FILTERS, Scalars(["name", "quality", "min", "max"]))],
    map["items" := MAX_MODULE_KINDS])

  function Keys(shape: Shape): set<string> {
    Elements(shape.scalars) + shape.objects.Keys + shape.arrays.Keys + shape.counts.Keys
  }

  /** No key is declared twice, at any depth. */
  ghost predicate Separate(shape: Shape) {
    && Elements(shape.scalars) !! shape.objects.Keys !! shape.arrays.Keys !! shape.counts.Keys
    && (forall k | k in shape.objects :: Separate(shape.objects[k]))
    && (forall k | k in shape.arrays :: Separate(shape.arrays[k].shape))
  }

  lemma FlatIsSeparate(shape: Shape)
    requires shape.arrays == map[] && shape.counts == map[]
    requires Elements(shape.scalars) !! shape.objects.Keys
    requires forall k | k in shape.objects :: shape.objects[k] == SIGNAL_SHAPE
    ensures Separate(shape)
  {
    assert Separate(SIGNAL_SHAPE);
  }

  lemma DeciderIsSeparate()
    ensures Separate(DECIDER_SHAPE)
  {
    FlatIsSeparate(DECIDER_SHAPE.arrays["conditions"].shape);
    FlatIsSeparate(DECIDER_SHAPE.arrays["outputs"].shape);
  }

  lemma SectionIsSeparate()
    ensures Separate(SECTION_SHAPE)
  {
    FlatIsSeparate(SECTION_SHAPE.arrays["filters"].shape);
  }

  lemma ControlObjectsAreSeparate(k: string)
    requires k in CONTROL_SHAPE.objects
    ensures Separate(CONTROL_SHAPE.objects[k])
  {
    FlatIsSeparate(CONDITION_SHAPE);
    FlatIsSeparate(ARITHMETIC_SHAPE);
    FlatIsSeparate(SIGNAL_SHAPE);
    DeciderIsSeparate();
  }

  lemma ControlKeyApart(k: string)
    requires k in CONTROL_SHAPE.objects
    ensures k !in CONTROL_SHAPE.scalars && k !in CONTROL_SHAPE.arrays
  {
    assert |k| in {7, 10, 13, 15, 16, 17};
  }

  lemma ControlIsSeparate()
    ensures Separate(CONTROL_SHAPE)
  {
    SectionIsSeparate();
    assert "sections" !in CONTROL_SHAPE.scalars;
    forall k | k in CONTROL_SHAPE.objects
      ensures k !in CONTROL_SHAPE.scalars && k !in CONTROL_SHAPE.arrays && Separate(CONTROL_SHAPE.objects[k])
    {
      ControlKeyApart(k);
      ControlObjectsAreSeparate(k);
    }
  }

  lemma ExtraArraysAreSeparate(k: string)
    requires k in ENTITY_EXTRA_SHAPE.arrays
    ensures Separate(ENTITY_EXTRA_SHAPE.arrays[k].shape)
  {
    FlatIsSeparate(ENTITY_EXTRA_SHAPE.arrays[k].shape);
  }

  lemma ExtraKeysApart()
    ensures Elements(ENTITY_EXTRA_SHAPE.scalars) !! ENTITY_EXTRA_SHAPE.objects.Keys
            !! ENTITY_EXTRA_SHAPE.arrays.Keys !! ENTITY_EXTRA_SHAPE.counts.Keys
  {
  }

  lemma WhitelistIsSeparate()
    ensures Separate(ENTITY_EXTRA_SHAPE)
  {
    ExtraKeysApart();
    ControlIsSeparate();
    forall k | k in ENTITY_EXTRA_SHAPE.arrays ensures Separate(ENTITY_EXTRA_SHAPE.arrays[k].shape) {
      ExtraArraysAreSeparate(k);
    }
  }

  // ------------------------------------------------------- copy_shape, as a relation

  /** `copy_shape` returns nil instead of a table it put nothing in. */
  function Wrap(fields: map<string, Value>): Value {
    if fields == map[] then Nil else RecordOf(fields)
  }

  function Fields(copy: Value): map<string, Value> {
    if copy.Table? then copy.fields else map[]
  }

  function Lookup(copy: Value, key: string): Value {
    if copy.Table? then Get(copy, key) else Nil
  }

  function ScalarCopy(v: Value): Value {
    if v.Str? || v.Num? || v.Bool? then v else Nil
  }

  function OrEmpty(v: Value): Value {
    if v == Nil then EMPTY_TABLE else v
  }

  function Numbers(v: Value): map<string, Value>
    requires v.Table?
  {
    map k | k in v.fields && v.fields[k].Num? :: v.fields[k]
  }

  /** The first `max` numeric entries in some enumeration order: any sub-map of
      the right size. */
  ghost predicate CountsCopyOf(source: Value, max: nat, copy: Value) {
    if !source.Table? then copy == Nil
    else
      && copy == Wrap(Fields(copy))
      && (forall k | k in Fields(copy) :: k in Numbers(source) && Fields(copy)[k] == Numbers(source)[k])
      && |Fields(copy)| == if |Numbers(source)| < max then |Numbers(source)| else max
  }

  ghost predicate ArrayCopyOf(source: Value, spec: ArraySpec, copy: Value)
    decreases spec
  {
    if !source.Table? then copy == Nil
    else
      var n := if |source.list| < spec.max then |source.list| else spec.max;
      if n == 0 then copy == Nil
      else
        && copy.Table? && copy == ListOf(copy.list) && |copy.list| == n
        && forall i | 0 <= i < n :: ItemCopyOf(source.list[i], spec.shape, copy.list[i])
  }

  ghost predicate ItemCopyOf(source: Value, shape: Shape, copy: Value)
    decreases shape, 1
  {
    copy != Nil && (CopyOf(source, shape, copy) || (copy == EMPTY_TABLE && CopyOf(source, shape, Nil)))
  }

  /** `copy` is what `copy_shape(source, shape)` returns under some enumeration order. */
  ghost predicate CopyOf(source: Value, shape: Shape, copy: Value)
    decreases shape, 0
  {
    if !source.Table? then copy == Nil
    else
      && copy == Wrap(Fields(copy))
      && Fields(copy).Keys <= Keys(shape)
      && (forall k | k in Fields(copy) :: Fields(copy)[k] != Nil)
      && (forall k | k in shape.scalars :: Lookup(copy, k) == ScalarCopy(Get(source, k)))
      && (forall k | k in shape.objects :: CopyOf(Get(source, k), shape.objects[k], Lookup(copy, k)))
      && (forall k | k in shape.arrays :: ArrayCopyOf(Get(source, k), shape.arrays[k], Lookup(copy, k)))
      && (forall k | k in shape.counts :: CountsCopyOf(Get(source, k), shape.counts[k], Lookup(copy, k)))
  }

  // ------------------------------------------------------------------- idempotence

  lemma CountsCopyFixed(source: Value, max: nat, copy: Value, again: Value)
    requires CountsCopyOf(source, max, copy) && CountsCopyOf(copy, max, again)
    ensures again == copy
  {
    if copy.Table? {
      assert Numbers(copy) == copy.fields;
      assert again.Table? && again.fields.Keys <= copy.fields.Keys;
      SubmapOfSameSize(again.fields, copy.fields);
    }
  }

  lemma SubmapOfSameSize(small: map<string, Value>, large: map<string, Value>)
    requires forall k | k in small :: k in large && small[k] == large[k]
    requires |small| == |large|
    ensures small == large
  {
    if k :| k in large && k !in small {
      assert |small.Keys| == |small| && |large.Keys| == |large|;
      SubsetCount(small.Keys, large.Keys - {k});
    }
  }

  lemma {:induction false} SubsetCount(small: set<string>, large: set<string>)
    requires small <= large
    ensures |small| <= |large|
  {
    if x :| x in small {
      SubsetCount(small - {x}, large - {x});
    }
  }

  /** A second pass of `copy_shape` over its own result changes nothing, whatever
      order either pass enumerated its tables in. */
  lemma {:induction false} CopyFixed(source: Value, shape: Shape, copy: Value, again: Value)
    requires CopyOf(source, shape, copy) && CopyOf(copy, shape, again)
    ensures again == copy
    decreases shape, 0
  {
    if copy.Table? {
      forall k | k in Keys(shape) ensures Lookup(again, k) == Lookup(copy, k) {
        if k in shape.scalars {
        } else if k in shape.objects {
          CopyFixed(Get(source, k), shape.objects[k], Lookup(copy, k), Lookup(again, k));
        } else if k in shape.arrays {
          ArrayCopyFixed(Get(source, k), shape.arrays[k], Lookup(copy, k), Lookup(again, k));
        } else {
          CountsCopyFixed(Get(source, k), shape.counts[k], Lookup(copy, k), Lookup(again, k));
        }
      }
      SameFields(shape, copy, again);
    }
  }

  lemma SameFields(shape: Shape, copy: Value, again: Value)
    requires copy == Wrap(Fields(copy)) && again == Wrap(Fields(again))
    requires Fields(copy).Keys <= Keys(shape) && Fields(again).Keys <= Keys(shape)
    requires forall k | k in Fields(copy) :: Fields(copy)[k] != Nil
    requires forall k | k in Fields(again) :: Fields(again)[k] != Nil
    requires forall k | k in Keys(shape) :: Lookup(again, k) == Lookup(copy, k)
    ensures again == copy
  {
    forall k ensures k in Fields(copy) <==> k in Fields(again) {
      if k in Keys(shape) { assert Lookup(again, k) == Lookup(copy, k); }
    }
    forall k | k in Fields(copy) ensures Fields(copy)[k] == Fields(again)[k] {
      assert Lookup(again, k) == Lookup(copy, k);
    }
    assert Fields(copy) == Fields(again);
  }

  lemma {:induction false} ArrayCopyFixed(source: Value, spec: ArraySpec, copy: Value, again: Value)
    requires ArrayCopyOf(source, spec, copy) && ArrayCopyOf(copy, spec, again)
    ensures again == copy
    decreases spec
  {
    if copy.Table? {
      forall i | 0 <= i < |copy.list| ensures again.list[i] == copy.list[i] {
        ItemCopyFixed(source.list[i], spec.shape, copy.list[i], again.list[i]);
      }
      assert again.list == copy.list;
    }
  }

  lemma {:induction false} ItemCopyFixed(source: Value, shape: Shape, copy: Value, again: Value)
    requires ItemCopyOf(source, shape, copy) && ItemCopyOf(copy, shape, again)
    ensures again == copy
    decreases shape, 1
  {
    if copy == EMPTY_TABLE {
      if CopyOf(copy, shape, again) {
        EmptyCopy(shape, again);
      }
    } else {
      if CopyOf(copy, shape, again) {
        CopyFixed(source, shape, copy, again);
      } else {
        CopyFixed(source, shape, copy, Nil);
      }
    }
  }

  /** A table with nothing in it copies to nothing. */
  lemma {:induction false} EmptyCopy(shape: Shape, again: Value)
    requires CopyOf(EMPTY_TABLE, shape, again)
    ensures again == Nil
  {
    forall k | k in Keys(shape) ensures Lookup(again, k) == Nil {
      assert Get(EMPTY_TABLE, k) == Nil;
    }
    assert Fields(again).Keys == {};
  }

  /** A whitelisted copy is its own only copy. */
  lemma {:induction false} CopyIsFixed(source: Value, shape: Shape, copy: Value)
    requires CopyOf(source, shape, copy)
    ensures CopyOf(copy, shape, copy)
    decreases shape, 0
  {
    if copy.Table? {
      forall k | k in shape.objects ensures CopyOf(Get(copy, k), shape.objects[k], Lookup(copy, k)) {
        CopyIsFixed(Get(source, k), shape.objects[k], Lookup(copy, k));
      }
      forall k | k in shape.arrays ensures ArrayCopyOf(Get(copy, k), shape.arrays[k], Lookup(copy, k)) {
        ArrayCopyIsFixed(Get(source, k), shape.arrays[k], Lookup(copy, k));
      }
      forall k | k in shape.counts ensures CountsCopyOf(Get(copy, k), shape.counts[k], Lookup(copy, k)) {
        assert CountsCopyOf(Get(source, k), shape.counts[k], Lookup(copy, k));
        if Get(copy, k).Table? { assert Numbers(Get(copy, k)) == Get(copy, k).fields; }
      }
    }
  }

  lemma {:induction false} ArrayCopyIsFixed(source: Value, spec: ArraySpec, copy: Value)
    requires ArrayCopyOf(source, spec, copy)
    ensures ArrayCopyOf(copy, spec, copy)
    decreases spec
  {
    if copy.Table? {
      forall i | 0 <= i < |copy.list| ensures ItemCopyOf(copy.list[i], spec.shape, copy.list[i]) {
        assert ItemCopyOf(source.list[i], spec.shape, copy.list[i]);
        if CopyOf(source.list[i], spec.shape, copy.list[i]) {
          CopyIsFixed(source.list[i], spec.shape, copy.list[i]);
        } else {
          EmptyCopies(spec.shape);
        }
      }
    }
  }

  lemma EmptyCopies(shape: Shape)
    ensures CopyOf(EMPTY_TABLE, shape, Nil)
  {
    assert forall k :: Get(EMPTY_TABLE, k) == Nil;
  }

  /** Only the declared keys of the source matter. */
  lemma CopyDependsOnKeys(source: Value, other: Value, shape: Shape, copy: Value)
    requires source.Table? && other.Table?
    requires forall k | k in Keys(shape) :: Get(other, k) == Get(source, k)
    requires CopyOf(source, shape, copy)
    ensures CopyOf(other, shape, copy)
  {
    assert forall k | k in shape.scalars :: k in Keys(shape);
    assert forall k | k in shape.objects :: k in Keys(shape);
    assert forall k | k in shape.arrays :: k in Keys(shape);
    assert forall k | k in shape.counts :: k in Keys(shape);
  }

  // ------------------------------------------------------- copy_shape, as a method

  /** What `CopyOf` asks of one declared key. */
  ghost predicate KeyCopyOf(source: Value, shape: Shape, k: string, v: Value)
    requires source.Table?
  {
    && (k in shape.scalars ==> v == ScalarCopy(Get(source, k)))
    && (k in shape.objects ==> CopyOf(Get(source, k), shape.objects[k], v))
    && (k in shape.arrays ==> ArrayCopyOf(Get(source, k), shape.arrays[k], v))
    && (k in shape.counts ==> CountsCopyOf(Get(source, k), shape.counts[k], v))
  }

  function Find(fields: map<string, Value>, k: string): Value {
    if k in fields then fields[k] else Nil
  }

  /** Every key handled so far carries its copy, and nothing else was written. */
  ghost predicate Copied(source: Value, shape: Shape, done: set<string>, result: map<string, Value>)
    requires source.Table?
  {
    && result.Keys <= done
    && (forall k | k in result :: result[k] != Nil)
    && (forall k | k in done :: KeyCopyOf(source, shape, k, Find(result, k)))
  }

  /** Writing one more declared key, or leaving it out because its copy is nil.
      A declared key has one kind, so its own copy is all that is asked of it. */
  lemma CopiedExtend(source: Value, shape: Shape, done: set<string>, result: map<string, Value>, key: string, v: Value)
    requires source.Table? && Separate(shape) && Copied(source, shape, done, result)
    requires key !in done && key !in shape.scalars
    requires
      || (key in shape.objects && CopyOf(Get(source, key), shape.objects[key], v))
      || (key in shape.arrays && ArrayCopyOf(Get(source, key), shape.arrays[key], v))
      || (key in shape.counts && CountsCopyOf(Get(source, key), shape.counts[key], v))
    ensures Copied(source, shape, done + {key}, Put(result, key, v))
  {
    var next := Put(result, key, v);
    assert Find(next, key) == v;
    assert KeyCopyOf(source, shape, key, v);
    forall k | k in done ensures KeyCopyOf(source, shape, k, Find(next, k)) {
      assert Find(next, k) == Find(result, k);
    }
  }

  lemma CopiedIsCopy(source: Value, shape: Shape, result: map<string, Value>)
    requires source.Table? && Copied(source, shape, Keys(shape), result)
    ensures CopyOf(source, shape, Wrap(result))
  {
    var copy := Wrap(result);
    assert forall k :: Lookup(copy, k) == Find(result, k);
    forall k | k in Keys(shape) ensures KeyCopyOf(source, shape, k, Lookup(copy, k)) {
      assert KeyCopyOf(source, shape, k, Find(result, k));
    }
    assert forall k | k in shape.scalars :: k in Keys(shape);
    assert forall k | k in shape.objects :: k in Keys(shape);
    assert forall k | k in shape.arrays :: k in Keys(shape);
    assert forall k | k in shape.counts :: k in Keys(shape);
  }

  /** `copy_shape`. */
  method CopyShape(source: Value, shape: Shape) returns (copy: Value)
    requires Separate(shape)
    ensures CopyOf(source, shape, copy)
    decreases shape, 2
  {
    if !source.Table? {
      return Nil;
    }
    var result := CopyScalars(source, shape);
    ghost var done := Elements(shape.scalars) + shape.objects.Keys;
    result := CopyObjects(source, shape, result);
    result := CopyArrays(source, shape, done, result);
    result := CopyAllCounts(source, shape, done + shape.arrays.Keys, result);
    CopiedIsCopy(source, shape, result);
    copy := Wrap(result);
  }

  method CopyScalars(source: Value, shape: Shape) returns (result: map<string, Value>)
    requires source.Table? && Separate(shape)
    ensures Copied(source, shape, Elements(shape.scalars), result)
  {
    result := map[];
    var i := 0;
    while i < |shape.scalars|
      invariant 0 <= i <= |shape.scalars|
      invariant Copied(source, shape, Elements(shape.scalars[..i]), result)
    {
      var key := shape.scalars[i];
      var value := Get(source, key);
      if value.Str? || value.Num? || value.Bool? {
        result := result[key := value];
      }
      assert Elements(shape.scalars[..i + 1]) == Elements(shape.scalars[..i]) + {key};
      i := i + 1;
    }
    assert shape.scalars[..i] == shape.scalars;
  }

  method CopyObjects(source: Value, shape: Shape, scalars: map<string, Value>) returns (result: map<string, Value>)
    requires source.Table? && Separate(shape)
    requires Copied(source, shape, Elements(shape.scalars), scalars)
    ensures Copied(source, shape, Elements(shape.scalars) + shape.objects.Keys, result)
    decreases shape, 1
  {
    result := scalars;
    var remaining := shape.objects.Keys;
    ghost var done := Elements(shape.scalars);
    while remaining != {}
      invariant remaining <= shape.objects.Keys && done !! remaining
      invariant done + remaining == Elements(shape.scalars) + shape.objects.Keys
      invariant Copied(source, shape, done, result)
      decreases remaining
    {
      var key :| key in remaining;
      result := CopyObject(source, shape, done, result, key);
      remaining, done := remaining - {key}, done + {key};
    }
  }

  method CopyObject(source: Value, shape: Shape, ghost done: set<string>, result: map<string, Value>, key: string)
    returns (next: map<string, Value>)
    requires source.Table? && Separate(shape) && key in shape.objects && key !in done
    requires Copied(source, shape, done, result)
    ensures Copied(source, shape, done + {key}, next)
    decreases shape, 0
  {
    var child := CopyShape(Get(source, key), shape.objects[key]);
    CopiedExtend(source, shape, done, result, key, child);
    next := Put(result, key, child);
  }

  method CopyArrays(source: Value, shape: Shape, ghost before: set<string>, objects: map<string, Value>)
    returns (result: map<string, Value>)
    requires source.Table? && Separate(shape) && before !! shape.arrays.Keys
    requires Copied(source, shape, before, objects)
    ensures Copied(source, shape, before + shape.arrays.Keys, result)
    decreases shape, 1
  {
    result := objects;
    var remaining := shape.arrays.Keys;
    ghost var done := before;
    while remaining != {}
      invariant remaining <= shape.arrays.Keys && done !! remaining
      invariant done + remaining == before + shape.arrays.Keys
      invariant Copied(source, shape, done, result)
      decreases remaining
    {
      var key :| key in remaining;
      result := CopyList(source, shape, done, result, key);
      remaining, done := remaining - {key}, done + {key};
    }
  }

  method CopyList(source: Value, shape: Shape, ghost done: set<string>, result: map<string, Value>, key: string)
    returns (next: map<string, Value>)
    requires source.Table? && Separate(shape) && key in shape.arrays && key !in done
    requires Copied(source, shape, done, result)
    ensures Copied(source, shape, done + {key}, next)
    decreases shape, 0
  {
    var list := CopyArray(Get(source, key), shape.arrays[key]);
    CopiedExtend(source, shape, done, result, key, list);
    next := Put(result, key, list);
  }

  method CopyArray(source: Value, spec: ArraySpec) returns (copy: Value)
    requires Separate(spec.shape)
    ensures ArrayCopyOf(source, spec, copy)
    decreases spec, 1
  {
    copy := Nil;
    if source.Table? {
      var copied := CopyItems(source.list, spec);
      if |copied| > 0 {
        copy := ListOf(copied);
      }
    }
  }

  method CopyItems(list: seq<Value>, spec: ArraySpec) returns (copied: seq<Value>)
    requires Separate(spec.shape)
    ensures |copied| == if |list| < spec.max then |list| else spec.max
    ensures forall i | 0 <= i < |copied| :: ItemCopyOf(list[i], spec.shape, copied[i])
    decreases spec, 0
  {
    copied := [];
    var index := 0;
    while index < |list|
      invariant 0 <= index <= |list| && index <= spec.max && |copied| == index
      invariant forall i | 0 <= i < index :: ItemCopyOf(list[i], spec.shape, copied[i])
    {
      if index + 1 > spec.max {
        break;
      }
      var item := CopyShape(list[index], spec.shape);
      copied := copied + [OrEmpty(item)];
      index := index + 1;
    }
  }

  method CopyAllCounts(source: Value, shape: Shape, ghost before: set<string>, arrays: map<string, Value>)
    returns (result: map<string, Value>)
    requires source.Table? && Separate(shape) && before !! shape.counts.Keys
    requires Copied(source, shape, before, arrays)
    ensures Copied(source, shape, before + shape.counts.Keys, result)
  {
    result := arrays;
    var remaining := shape.counts.Keys;
    ghost var done := before;
    while remaining != {}
      invariant remaining <= shape.counts.Keys && done !! remaining
      invariant done + remaining == before + shape.counts.Keys
      invariant Copied(source, shape, done, result)
      decreases remaining
    {
      var key :| key in remaining;
      var counts := CopyCounts(Get(source, key), shape.counts[key]);
      CopiedExtend(source, shape, done, result, key, counts);
      result := Put(result, key, counts);
      remaining, done := remaining - {key}, done + {key};
    }
  }

  method CopyCounts(source: Value, max: nat) returns (copy: Value)
    ensures CountsCopyOf(source, max, copy)
  {
    if !source.Table? {
      return Nil;
    }
    var copied: map<string, Value> := map[];
    var kinds := 0;
    var remaining := source.fields.Keys;
    ghost var numbers := Numbers(source);
    ghost var skipped: set<string> := {};
    while remaining != {}
      invariant remaining <= source.fields.Keys
      invariant CountsSoFar(numbers, copied, skipped, remaining)
      invariant kinds == |copied| <= max
      invariant skipped != {} ==> kinds == max
      decreases remaining
    {
      var name :| name in remaining;
      var count := source.fields[name];
      if count.Num? && kinds < max {
        CountTaken(numbers, copied, skipped, remaining, name);
        copied := copied[name := count];
        kinds := kinds + 1;
      } else if count.Num? {
        skipped := skipped + {name};
      }
      remaining := remaining - {name};
    }
    CountsSize(numbers, copied, skipped);
    copy := Wrap(copied);
  }

  /** Every numeric entry enumerated so far was either taken or skipped. */
  ghost predicate CountsSoFar(numbers: map<string, Value>, copied: map<string, Value>, skipped: set<string>, remaining: set<string>) {
    && (forall k | k in copied :: k in numbers && copied[k] == numbers[k])
    && (forall k | k in skipped :: k in numbers && k !in copied)
    && (forall k | k in numbers :: k in copied || k in skipped || k in remaining)
    && (forall k | k in remaining :: k !in copied && k !in skipped)
  }

  lemma CountTaken(numbers: map<string, Value>, copied: map<string, Value>, skipped: set<string>, remaining: set<string>, name: string)
    requires CountsSoFar(numbers, copied, skipped, remaining)
    requires name in remaining && name in numbers
    ensures CountsSoFar(numbers, copied[name := numbers[name]], skipped, remaining - {name})
    ensures |copied[name := numbers[name]]| == |copied| + 1
  {
    var next := copied[name := numbers[name]];
    assert next.Keys == copied.Keys + {name};
    assert |next| == |next.Keys| && |copied| == |copied.Keys|;
  }

  lemma CountsSize(numbers: map<string, Value>, copied: map<string, Value>, skipped: set<string>)
    requires CountsSoFar(numbers, copied, skipped, {})
    ensures |numbers| == |copied| + |skipped|
  {
    assert numbers.Keys == copied.Keys + skipped;
    assert |numbers| == |numbers.Keys| && |copied| == |copied.Keys|;
  }
}
