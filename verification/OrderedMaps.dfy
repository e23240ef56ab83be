/** JavaScript's `Map`: a table that remembers insertion order. Setting a key it already
    has keeps the key's place; deleting and setting again moves it to the end. */
module OrderedMaps {
  import opened LuaValues

  datatype Pair<K, V> = Pair(key: K, value: V)

  function Keys<K, V>(m: seq<Pair<K, V>>): (keys: seq<K>)
    ensures |keys| == |m| && forall i | 0 <= i < |m| :: keys[i] == m[i].key
  {
    seq(|m|, i requires 0 <= i < |m| => m[i].key)
  }

  ghost predicate Unique<K(!new), V>(m: seq<Pair<K, V>>) {
    forall i, j | 0 <= i < j < |m| :: m[i].key != m[j].key
  }

  function Lookup<K(==), V>(m: seq<Pair<K, V>>, k: K): Option<V> {
    if m == [] then None else if m[0].key == k then Some(m[0].value) else Lookup(m[1..], k)
  }

  function Set<K(==), V>(m: seq<Pair<K, V>>, k: K, v: V): seq<Pair<K, V>> {
    if m == [] then [Pair(k, v)]
    else if m[0].key == k then [Pair(k, v)] + m[1..]
    else [m[0]] + Set(m[1..], k, v)
  }

  function Delete<K(==), V>(m: seq<Pair<K, V>>, k: K): seq<Pair<K, V>> {
    if m == [] then [] else if m[0].key == k then m[1..] else [m[0]] + Delete(m[1..], k)
  }

  lemma {:induction false} LookupFinds<K(!new), V(!new)>(m: seq<Pair<K, V>>, k: K)
    ensures Lookup(m, k).Some? <==> exists i :: 0 <= i < |m| && m[i].key == k
    ensures Lookup(m, k).Some? ==> exists i :: 0 <= i < |m| && m[i] == Pair(k, Lookup(m, k).value)
  {
    if m != [] {
      LookupFinds(m[1..], k);
      if m[0].key == k {
        assert m[0] == Pair(k, m[0].value);
      } else if Lookup(m[1..], k).Some? {
        var i :| 0 <= i < |m[1..]| && m[1..][i] == Pair(k, Lookup(m, k).value);
        assert m[i + 1] == Pair(k, Lookup(m, k).value);
      } else {
        forall i | 0 <= i < |m| ensures m[i].key != k {
          if i > 0 { assert m[1..][i - 1] == m[i]; }
        }
      }
    }
  }

  lemma {:induction false} SetLookup<K(!new), V(!new)>(m: seq<Pair<K, V>>, k: K, v: V, x: K)
    ensures Lookup(Set(m, k, v), x) == if x == k then Some(v) else Lookup(m, x)
  {
    if m != [] && m[0].key != k {
      SetLookup(m[1..], k, v, x);
      assert Set(m, k, v)[1..] == Set(m[1..], k, v);
    } else if m != [] {
      assert Set(m, k, v)[1..] == m[1..];
    }
  }

  lemma {:induction false} SetElements<K(!new), V(!new)>(m: seq<Pair<K, V>>, k: K, v: V)
    ensures |Set(m, k, v)| == |m| + if Lookup(m, k).Some? then 0 else 1
    ensures forall p | p in Set(m, k, v) :: p == Pair(k, v) || p in m
    ensures Pair(k, v) in Set(m, k, v)
  {
    if m != [] {
      if m[0].key != k {
        SetElements(m[1..], k, v);
      }
      assert m == [m[0]] + m[1..];
    }
  }

  lemma {:induction false} SetMembers<K(!new), V(!new)>(m: seq<Pair<K, V>>, k: K, v: V)
    requires Unique(m)
    ensures forall p :: p in Set(m, k, v) <==> p == Pair(k, v) || (p in m && p.key != k)
  {
    if m != [] {
      assert forall i | 0 <= i < |m[1..]| :: m[1..][i] == m[i + 1] && m[i + 1].key != m[0].key;
      if m[0].key != k {
        SetMembers(m[1..], k, v);
      }
      assert m == [m[0]] + m[1..];
    }
  }

  lemma {:induction false} SetUnique<K(!new), V(!new)>(m: seq<Pair<K, V>>, k: K, v: V)
    requires Unique(m)
    ensures Unique(Set(m, k, v))
  {
    if m != [] {
      assert forall i | 0 <= i < |m[1..]| :: m[1..][i] == m[i + 1];
      if m[0].key != k {
        SetUnique(m[1..], k, v);
        SetElements(m[1..], k, v);
        var rest := Set(m[1..], k, v);
        forall i | 0 <= i < |rest| ensures rest[i].key != m[0].key {
          assert rest[i] in rest;
        }
      }
    }
  }

  lemma {:induction false} DeleteFacts<K(!new), V(!new)>(m: seq<Pair<K, V>>, k: K)
    requires Unique(m)
    ensures |Delete(m, k)| == |m| - if Lookup(m, k).Some? then 1 else 0
    ensures Unique(Delete(m, k))
    ensures forall p :: p in Delete(m, k) <==> p in m && p.key != k
    ensures forall x :: Lookup(Delete(m, k), x) == if x == k then None else Lookup(m, x)
  {
    if m != [] {
      assert m == [m[0]] + m[1..];
      assert forall i | 0 <= i < |m[1..]| :: m[1..][i] == m[i + 1] && m[i + 1].key != m[0].key;
      if m[0].key == k {
        LookupFinds(m[1..], k);
      } else {
        DeleteFacts(m[1..], k);
        var rest := Delete(m[1..], k);
        assert Delete(m, k)[1..] == rest;
        forall i | 0 <= i < |rest| ensures rest[i].key != m[0].key {
          assert rest[i] in rest;
        }
      }
    }
  }
}
