/** A list of entries together with the table that indexes them by identifier. */
module KeyedLists {
  import opened LuaValues

  function KeysOf<T>(items: seq<T>, key: T -> string): (keys: seq<string>)
    ensures |keys| == |items|
    ensures forall i | 0 <= i < |items| :: keys[i] == key(items[i])
  {
    seq(|items|, i requires 0 <= i < |items| => key(items[i]))
  }

  function MapOf<T>(items: seq<T>, key: T -> string): map<string, T> {
    if items == [] then map[] else MapOf(items[..|items| - 1], key)[key(items[|items| - 1]) := items[|items| - 1]]
  }

  lemma {:induction false} MapFacts<T(!new)>(items: seq<T>, key: T -> string)
    requires Distinct(KeysOf(items, key))
    ensures forall id :: id in MapOf(items, key) <==> id in KeysOf(items, key)
    ensures forall i | 0 <= i < |items| :: key(items[i]) in MapOf(items, key) && MapOf(items, key)[key(items[i])] == items[i]
  {
    if items != [] {
      var init, last := items[..|items| - 1], items[|items| - 1];
      assert KeysOf(items, key) == KeysOf(init, key) + [key(last)];
      PrefixDistinct(KeysOf(init, key), key(last));
      MapFacts(init, key);
      assert forall i | 0 <= i < |init| :: items[i] == init[i] && key(init[i]) in KeysOf(init, key);
    }
  }

  /** An entry of the table comes from the list. */
  lemma MapEntry<T(!new)>(items: seq<T>, key: T -> string, id: string)
    requires Distinct(KeysOf(items, key)) && id in MapOf(items, key)
    ensures MapOf(items, key)[id] in items && key(MapOf(items, key)[id]) == id
  {
    MapFacts(items, key);
    var i :| 0 <= i < |items| && KeysOf(items, key)[i] == id;
  }

  lemma PrefixDistinct(keys: seq<string>, last: string)
    requires Distinct(keys + [last])
    ensures Distinct(keys) && last !in keys
  {
    var all := keys + [last];
    forall i | 0 <= i < |keys| ensures keys[i] != last {
      assert all[i] != all[|keys|];
    }
    forall i, j | 0 <= i < j < |keys| ensures keys[i] != keys[j] {
      assert all[i] != all[j];
    }
  }

  lemma AppendDistinct(keys: seq<string>, last: string)
    requires Distinct(keys) && last !in keys
    ensures Distinct(keys + [last])
  {
  }

  lemma MapAppend<T>(items: seq<T>, key: T -> string, item: T)
    ensures MapOf(items + [item], key) == MapOf(items, key)[key(item) := item]
    ensures KeysOf(items + [item], key) == KeysOf(items, key) + [key(item)]
  {
    assert (items + [item])[..|items|] == items;
  }

  lemma SuffixDistinct<T(!new)>(items: seq<T>, key: T -> string, k: nat)
    requires k <= |items| && Distinct(KeysOf(items, key))
    ensures KeysOf(items[k..], key) == KeysOf(items, key)[k..]
    ensures Distinct(KeysOf(items[k..], key))
  {
    assert KeysOf(items[k..], key) == KeysOf(items, key)[k..];
  }

  /** Dropping the oldest entry of the list drops its key from the table. */
  lemma {:induction false} MapDropFirst<T(!new)>(items: seq<T>, key: T -> string)
    requires items != [] && Distinct(KeysOf(items, key))
    ensures MapOf(items[1..], key) == MapOf(items, key) - {key(items[0])}
  {
    var init, last := items[..|items| - 1], items[|items| - 1];
    if init == [] {
      assert items[1..] == [] && MapOf(init, key) == map[];
    } else {
      assert KeysOf(items, key) == KeysOf(init, key) + [key(last)];
      PrefixDistinct(KeysOf(init, key), key(last));
      assert KeysOf(init, key)[0] == key(items[0]);
      MapDropFirst(init, key);
      assert items[1..][..|items| - 2] == init[1..];
    }
  }
}
