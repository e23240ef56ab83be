/** The edits of a blueprint book: which requests are accepted, and what an accepted
    one does to the member list. */
module Books {
  import opened LuaValues
  import opened Inboxes

  // -------------------------------------------------------------------- scanning ID lists

  /** The three loops over a request's `blueprintIds` make the same checks in the same
      order; they differ in the cap and in the code each check answers with. */
  datatype Rules = Rules(limit: Option<nat>, notString: string, duplicate: string, unknown: string)

  const MEMBER_RULES := Rules(Some(MAX_BOOK_MEMBERS), "INVALID_BLUEPRINT_ID", "DUPLICATE_BOOK_MEMBER", "BLUEPRINT_NOT_FOUND")
  const REMOVAL_RULES := Rules(Some(MAX_BOOK_MEMBERS), "DUPLICATE_BOOK_MEMBER", "DUPLICATE_BOOK_MEMBER", "BOOK_MEMBER_NOT_FOUND")
  const ORDER_RULES := Rules(None, "BOOK_ORDER_MISMATCH", "BOOK_ORDER_MISMATCH", "BOOK_ORDER_MISMATCH")

  function Scan(list: seq<Value>, rules: Rules, known: set<string>, taken: set<string>): Result<seq<string>> {
    if list == [] then Ok([])
    else
      var before, id := Scan(list[..|list| - 1], rules, known, taken), list[|list| - 1];
      if before.Err? then before
      else if rules.limit.Some? && |before.value| >= rules.limit.value then Err("INVALID_BOOK_MEMBERS")
      else if !id.Str? then Err(rules.notString)
      else if id.text in before.value || id.text in taken then Err(rules.duplicate)
      else if id.text !in known then Err(rules.unknown)
      else Ok(before.value + [id.text])
  }

  ghost predicate Acceptable(list: seq<Value>, rules: Rules, known: set<string>, taken: set<string>) {
    && (rules.limit.Some? ==> |list| <= rules.limit.value)
    && (forall i | 0 <= i < |list| :: list[i].Str? && list[i].text in known && list[i].text !in taken)
    && (forall i, j | 0 <= i < j < |list| :: list[i] != list[j])
  }

  /** One more identifier is acceptable when it is new to the list and fits it. */
  lemma AcceptableAppend(init: seq<Value>, id: Value, rules: Rules, known: set<string>, taken: set<string>)
    ensures Acceptable(init + [id], rules, known, taken)
            <==> && Acceptable(init, rules, known, taken)
                 && (rules.limit.Some? ==> |init| < rules.limit.value)
                 && id.Str? && id.text in known && id.text !in taken && id !in init
  {
    var list := init + [id];
    assert forall i | 0 <= i < |init| :: list[i] == init[i];
    assert list[|init|] == id;
  }

  lemma StrsElements(list: seq<Value>, texts: seq<string>, text: string)
    requires Strs(texts) == list
    ensures |list| == |texts| && (Str(text) in list <==> text in texts)
  {
    if text in texts {
      var i :| 0 <= i < |texts| && texts[i] == text;
      assert list[i] == Str(text);
    }
  }

  /** A list is taken wholesale or not at all: it is accepted exactly when it is short
      enough, all strings, without repetition, all known and none taken; and then
      nothing about it changes. */
  lemma {:induction false} ScanExact(list: seq<Value>, rules: Rules, known: set<string>, taken: set<string>)
    ensures Scan(list, rules, known, taken).Ok? <==> Acceptable(list, rules, known, taken)
    ensures Scan(list, rules, known, taken).Ok? ==>
              Strs(Scan(list, rules, known, taken).value) == list && Distinct(Scan(list, rules, known, taken).value)
  {
    if list != [] {
      var init, id := list[..|list| - 1], list[|list| - 1];
      ScanExact(init, rules, known, taken);
      assert list == init + [id];
      var before := Scan(init, rules, known, taken);
      AcceptableAppend(init, id, rules, known, taken);
      if before.Ok? && id.Str? {
        StrsElements(init, before.value, id.text);
      }
    }
  }

  /** `collect_members`. */
  function CollectMembers(ids: Value, known: set<string>, taken: set<string>): Result<seq<string>> {
    if !ids.Table? then Err("INVALID_BOOK_MEMBERS")
    else
      var members := Scan(ids.list, MEMBER_RULES, known, taken);
      if members.Ok? && members.value == [] then Err("INVALID_BOOK_MEMBERS") else members
  }

  // ------------------------------------------------------------------------- the four edits

  function Splice(s: seq<string>, at: nat, xs: seq<string>): seq<string>
    requires at <= |s|
  {
    s[..at] + xs + s[at..]
  }

  function DescriptionOf(v: Value): Option<string> {
    if v.Str? && |v.text| > 0 then Some(v.text) else None
  }

  predicate DescriptionRefused(v: Value) {
    v != Nil && !(v.Str? && |v.text| <= 1000)
  }

  function Renamed(book: Book, payload: Value): Result<Book>
    requires payload.Table?
  {
    var name, description := Get(payload, "name"), Get(payload, "description");
    if name == Nil && description == Nil then Err("INVALID_BOOK_UPDATE")
    else if name != Nil && !ValidString(name, 100) then Err("INVALID_BOOK_NAME")
    else if DescriptionRefused(description) then Err("INVALID_BOOK_DESCRIPTION")
    else
      var named := if name == Nil then book else book.(name := name.text);
      Ok(if description == Nil then named else named.(description := DescriptionOf(description)))
  }

  function Added(book: Book, payload: Value, stored: set<string>): Result<Book>
    requires payload.Table?
  {
    var additions := CollectMembers(Get(payload, "blueprintIds"), stored, Elements(book.members));
    var position := Get(payload, "position");
    var end := |book.members| + 1;
    if additions.Err? then Err(additions.code)
    else if |book.members| + |additions.value| > MAX_BOOK_MEMBERS then Err("BOOK_MEMBER_LIMIT_REACHED")
    else if position == Nil then Ok(book.(members := Splice(book.members, end - 1, additions.value)))
    else if !IntegerIn(position, 1, end) then Err("INVALID_BOOK_POSITION")
    else Ok(book.(members := Splice(book.members, position.number.Floor - 1, additions.value)))
  }

  function Removed(book: Book, payload: Value): Result<Book>
    requires payload.Table?
  {
    var ids := Get(payload, "blueprintIds");
    if !ids.Table? then Err("INVALID_BOOK_MEMBERS")
    else
      var removals := Scan(ids.list, REMOVAL_RULES, Elements(book.members), {});
      if removals.Err? then Err(removals.code)
      else if removals.value == [] then Err("INVALID_BOOK_MEMBERS")
      else Ok(book.(members := Without(book.members, Elements(removals.value))))
  }

  function Reordered(book: Book, payload: Value): Result<Book>
    requires payload.Table?
  {
    var ids := Get(payload, "blueprintIds");
    if !ids.Table? then Err("INVALID_BOOK_MEMBERS")
    else
      var ordered := Scan(ids.list, ORDER_RULES, Elements(book.members), {});
      if ordered.Err? then Err(ordered.code)
      else if |ordered.value| != |book.members| then Err("BOOK_ORDER_MISMATCH")
      else Ok(book.(members := ordered.value))
  }

  /** `update_book` on a book that exists. */
  function Edited(book: Book, payload: Value, stored: set<string>, now: Value): Result<Book>
    requires payload.Table?
  {
    var operation := Get(payload, "operation");
    var edited :=
      if operation == Str("rename") then Renamed(book, payload)
      else if operation == Str("add") then Added(book, payload, stored)
      else if operation == Str("remove") then Removed(book, payload)
      else if operation == Str("reorder") then Reordered(book, payload)
      else Err("INVALID_BOOK_OPERATION");
    if edited.Err? then edited else Ok(edited.value.(updatedTick := now))
  }

  // ------------------------------------------------------------------------ what they mean

  lemma CollectExact(ids: Value, known: set<string>, taken: set<string>)
    ensures CollectMembers(ids, known, taken).Ok? <==>
            ids.Table? && ids.list != [] && Acceptable(ids.list, MEMBER_RULES, known, taken)
    ensures CollectMembers(ids, known, taken).Ok? ==>
              var members := CollectMembers(ids, known, taken).value;
              && Strs(members) == ids.list
              && Distinct(members)
              && 0 < |members| <= MAX_BOOK_MEMBERS
              && forall m | m in members :: m in known && m !in taken
  {
    if ids.Table? {
      ScanExact(ids.list, MEMBER_RULES, known, taken);
      var scanned := Scan(ids.list, MEMBER_RULES, known, taken);
      if scanned.Ok? {
        assert forall i | 0 <= i < |scanned.value| :: ids.list[i] == Str(scanned.value[i]);
      }
    }
  }

  lemma CutAway(a: seq<string>, x: seq<string>, b: seq<string>, gone: set<string>)
    requires Without(a, gone) == a && Without(b, gone) == b && Without(x, gone) == []
    ensures Without(a + x + b, gone) == a + b
  {
    WithoutConcat(a + x, b, gone);
    WithoutConcat(a, x, gone);
  }

  /** An added run sits at the requested place, and taking it out again gives the old list. */
  lemma AddThenRemove(members: seq<string>, at: nat, additions: seq<string>)
    requires at <= |members|
    requires forall x | x in additions :: x !in members
    ensures Without(Splice(members, at, additions), Elements(additions)) == members
  {
    var gone := Elements(additions);
    WithoutNothing(members[..at], gone);
    WithoutNothing(members[at..], gone);
    WithoutAll(additions, gone);
    CutAway(members[..at], additions, members[at..], gone);
    assert members[..at] + members[at..] == members;
  }

  /** A remove of exactly what an accepted add brought in restores the member list. */
  lemma RemoveUndoesAdd(book: Book, add: Value, remove: Value, stored: set<string>)
    requires add.Table? && remove.Table? && Added(book, add, stored).Ok?
    requires Get(remove, "blueprintIds") == Get(add, "blueprintIds")
    ensures Removed(Added(book, add, stored).value, remove) == Ok(book)
  {
    var ids := Get(add, "blueprintIds");
    var taken := Elements(book.members);
    var additions := CollectMembers(ids, stored, taken).value;
    CollectExact(ids, stored, taken);
    var longer := Added(book, add, stored).value;
    assert longer.members == Splice(book.members, PositionOf(book, add), additions);
    AddThenRemove(book.members, PositionOf(book, add), additions);
    assert forall i | 0 <= i < |ids.list| :: ids.list[i].text == additions[i] && additions[i] in longer.members;
    ScanExact(ids.list, REMOVAL_RULES, Elements(longer.members), {});
    var removals := Scan(ids.list, REMOVAL_RULES, Elements(longer.members), {}).value;
    assert removals == additions by {
      assert Strs(removals) == Strs(additions);
      StrsInjective(removals, additions);
    }
  }

  function PositionOf(book: Book, payload: Value): nat
    requires payload.Table?
  {
    var position := Get(payload, "position");
    if IntegerIn(position, 1, |book.members| + 1) then position.number.Floor - 1 else |book.members|
  }

  lemma StrsInjective(a: seq<string>, b: seq<string>)
    requires Strs(a) == Strs(b)
    ensures a == b
  {
    assert |a| == |Strs(a)| == |b|;
    forall i | 0 <= i < |a| ensures a[i] == b[i] {
      assert Strs(a)[i] == Strs(b)[i];
    }
  }

  /** A duplicate-free list inside another of the same length has the same elements. */
  lemma SameLengthSameElements(a: seq<string>, b: seq<string>)
    requires Distinct(a) && Distinct(b) && |a| == |b|
    requires forall x | x in a :: x in b
    ensures multiset(a) == multiset(b)
  {
    DistinctCount(a);
    DistinctCount(b);
    SubsetOfSameSize(Elements(a), Elements(b));
    DistinctMultiset(a);
    DistinctMultiset(b);
  }

  lemma {:induction false} SubsetOfSameSize(a: set<string>, b: set<string>)
    requires a <= b && |a| == |b|
    ensures a == b
  {
    if x :| x in a {
      SubsetOfSameSize(a - {x}, b - {x});
    }
  }

  lemma {:induction false} DistinctMultiset(s: seq<string>)
    requires Distinct(s)
    ensures multiset(s) == multiset(Elements(s))
  {
    forall x ensures multiset(s)[x] == if x in Elements(s) then 1 else 0 {
      CountDistinct(s, x);
    }
  }

  lemma {:induction false} CountDistinct(s: seq<string>, x: string)
    requires Distinct(s)
    ensures multiset(s)[x] == if x in s then 1 else 0
  {
    if s != [] {
      var init, last := s[..|s| - 1], s[|s| - 1];
      CountDistinct(init, x);
      assert s == init + [last];
    }
  }

  /** A reorder is accepted exactly when it lists the current members, permuted. */
  lemma ReorderIsPermutation(book: Book, payload: Value)
    requires payload.Table? && Distinct(book.members)
    ensures Reordered(book, payload).Ok? <==>
            exists order :: Get(payload, "blueprintIds").Table? && Get(payload, "blueprintIds").list == Strs(order)
                            && multiset(order) == multiset(book.members)
    ensures Reordered(book, payload).Ok? ==>
              multiset(Reordered(book, payload).value.members) == multiset(book.members)
  {
    var ids := Get(payload, "blueprintIds");
    if ids.Table? {
      var known := Elements(book.members);
      ScanExact(ids.list, ORDER_RULES, known, {});
      var scanned := Scan(ids.list, ORDER_RULES, known, {});
      if scanned.Ok? && |scanned.value| == |book.members| {
        assert forall i | 0 <= i < |scanned.value| :: ids.list[i] == Str(scanned.value[i]);
        SameLengthSameElements(scanned.value, book.members);
      }
      if order :| ids.list == Strs(order) && multiset(order) == multiset(book.members) {
        PermutationAccepted(book.members, order);
        assert forall i | 0 <= i < |order| :: ids.list[i] == Str(order[i]) && order[i] in known;
        assert Acceptable(ids.list, ORDER_RULES, known, {});
        StrsInjective(scanned.value, order);
      }
    }
  }

  lemma PermutationAccepted(members: seq<string>, order: seq<string>)
    requires Distinct(members) && multiset(order) == multiset(members)
    ensures Distinct(order) && |order| == |members| && forall x | x in order :: x in members
  {
    assert |order| == |multiset(order)| == |members|;
    assert forall x | x in order :: x in multiset(order);
    DistinctMultiset(members);
    forall i, j | 0 <= i < j < |order| ensures order[i] != order[j] {
      if order[i] == order[j] {
        RepeatedCounts(order, i, j);
        assert false;
      }
    }
  }

  lemma RepeatedCounts(s: seq<string>, i: nat, j: nat)
    requires i < j < |s| && s[i] == s[j]
    ensures multiset(s)[s[i]] >= 2
  {
    assert s == s[..j] + [s[j]] + s[j + 1..];
    assert s[..j] == s[..i] + [s[i]] + s[i + 1..j];
  }

  /** Every accepted edit leaves the book sound. */
  lemma EditKeepsSound(id: string, book: Book, payload: Value, byId: map<string, Record>, now: Value)
    requires payload.Table? && BookSound(id, book, byId)
    requires Edited(book, payload, byId.Keys, now).Ok?
    ensures BookSound(id, Edited(book, payload, byId.Keys, now).value, byId)
  {
    var operation := Get(payload, "operation");
    if operation == Str("add") {
      AddKeepsSound(book, payload, byId.Keys);
    } else if operation == Str("remove") {
      WithoutElements(book.members, Elements(Scan(Get(payload, "blueprintIds").list, REMOVAL_RULES, Elements(book.members), {}).value));
    } else if operation == Str("reorder") {
      ReorderIsPermutation(book, payload);
      PermutationAccepted(book.members, Reordered(book, payload).value.members);
    }
  }

  lemma AddKeepsSound(book: Book, payload: Value, stored: set<string>)
    requires payload.Table? && Distinct(book.members) && Added(book, payload, stored).Ok?
    requires forall m | m in book.members :: m in stored
    ensures var members := Added(book, payload, stored).value.members;
            Distinct(members) && |members| <= MAX_BOOK_MEMBERS && forall m | m in members :: m in stored
  {
    CollectExact(Get(payload, "blueprintIds"), stored, Elements(book.members));
    var additions := CollectMembers(Get(payload, "blueprintIds"), stored, Elements(book.members)).value;
    SpliceDistinct(book.members, PositionOf(book, payload), additions);
  }

  lemma SpliceDistinct(s: seq<string>, at: nat, xs: seq<string>)
    requires at <= |s| && Distinct(s) && Distinct(xs)
    requires forall x | x in xs :: x !in s
    ensures Distinct(Splice(s, at, xs))
    ensures forall x :: x in Splice(s, at, xs) <==> x in s || x in xs
  {
    var t := Splice(s, at, xs);
    assert s == s[..at] + s[at..];
    assert forall k | 0 <= k < |xs| :: xs[k] in xs && xs[k] !in s;
    forall i, j | 0 <= i < j < |t| ensures t[i] != t[j] {
      assert t[i] == if i < at then s[i] else if i < at + |xs| then xs[i - at] else s[i - |xs|];
      assert t[j] == if j < at then s[j] else if j < at + |xs| then xs[j - at] else s[j - |xs|];
    }
  }
}
