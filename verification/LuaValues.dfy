/** The Lua values a save file or a gateway request can hold, as far as the
    blueprint library looks at them.

    A table is its string-keyed part, the run of values `ipairs` visits, and the
    number `#` answers. Lua lets `#` name any border of a table with holes, so
    `border` may exceed `|list|`; a table the library builds itself has no holes.
    Strings are sequences of bytes. */
module LuaValues {

  datatype Option<+T> = None | Some(value: T)

  datatype Result<+T> = Ok(value: T) | Err(code: string)

  datatype Value =
    | Nil
    | Bool(flag: bool)
    | Num(number: real)
    | Str(text: string)
    | Table(fields: map<string, Value>, list: seq<Value>, border: nat)

  const EMPTY_TABLE := Table(map[], [], 0)

  /** A freshly built array. */
  function ListOf(items: seq<Value>): Value {
    Table(map[], items, |items|)
  }

  /** A freshly built record. */
  function RecordOf(fields: map<string, Value>): Value {
    Table(fields, [], 0)
  }

  /** `v[key]` where `v` is a table; an absent key reads as nil. */
  function Get(v: Value, key: string): Value
    requires v.Table?
  {
    if key in v.fields then v.fields[key] else Nil
  }

  /** Values `v[key]` does not raise on: strings index into the string library,
      which has none of the keys used here. */
  predicate Indexable(v: Value) {
    v.Table? || v.Str?
  }

  function Index(v: Value, key: string): Value
    requires Indexable(v)
  {
    if v.Table? then Get(v, key) else Nil
  }

  /** `t[key] = v` in a table constructor: a nil leaves the key absent. */
  function Put(fields: map<string, Value>, key: string, v: Value): map<string, Value> {
    if v == Nil then fields else fields[key := v]
  }

  /** The library's `valid_string`. */
  predicate ValidString(v: Value, maximum: nat) {
    v.Str? && 0 < |v.text| <= maximum
  }

  /** The library's `integer`. */
  predicate IntegerIn(v: Value, low: int, high: int) {
    v.Num? && v.number == v.number.Floor as real && low <= v.number.Floor <= high
  }

  function Strs(texts: seq<string>): seq<Value> {
    seq(|texts|, i requires 0 <= i < |texts| => Str(texts[i]))
  }

  ghost predicate Distinct<T(!new)>(s: seq<T>) {
    forall i, j | 0 <= i < j < |s| :: s[i] != s[j]
  }

  /** `x` stands somewhere in front of `y`. */
  ghost predicate Before<T(!new)>(s: seq<T>, x: T, y: T) {
    exists a, b :: 0 <= a < b < |s| && s[a] == x && s[b] == y
  }

  /** The entries of `kept` stand in the order they have in `s`. */
  ghost predicate InOrderOf<T(!new)>(kept: seq<T>, s: seq<T>) {
    forall i, j | 0 <= i < j < |kept| :: Before(s, kept[i], kept[j])
  }

  function Elements<T>(s: seq<T>): (elements: set<T>) {
    set x | x in s
  }

  /** Pigeonhole: a duplicate-free list has as many entries as elements. */
  lemma {:induction false} DistinctCount<T(!new)>(s: seq<T>)
    requires Distinct(s)
    ensures |Elements(s)| == |s|
  {
    if s != [] {
      var init, last := s[..|s| - 1], s[|s| - 1];
      DistinctCount(init);
      assert Elements(s) == Elements(init) + {last};
      assert last !in Elements(init);
    }
  }
}
