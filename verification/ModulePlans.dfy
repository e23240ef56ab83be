/** Module requests of a blueprint entity: their validation, and the deterministic
    layout of an accepted request over the machine's module slots. */
module ModulePlans {
  import opened LuaValues
  import opened Canonical

  const MAX_MODULE_COUNT := 100

  /** What the prototype tables say of one machine: its module slots, whether its family
      has a module inventory, and which items it takes. */
  datatype Machine = Machine(slots: nat, hasInventory: bool, takes: string -> bool)

  predicate EntryAccepted(name: string, count: Value, machine: Machine) {
    1 <= |name| <= 200 && IntegerIn(count, 1, 100) && machine.takes(name)
  }

  function CountOf(v: Value): nat {
    if IntegerIn(v, 1, MAX_MODULE_COUNT) then v.number.Floor else 0
  }

  // --------------------------------------------------------------- totals over a key set

  ghost function TotalOver(items: map<string, Value>, keys: set<string>): nat
    requires keys <= items.Keys
  {
    if keys == {} then 0
    else
      var k :| k in keys;
      CountOf(items[k]) + TotalOver(items, keys - {k})
  }

  lemma {:induction false} TotalTake(items: map<string, Value>, keys: set<string>, x: string)
    requires keys <= items.Keys && x in keys
    ensures TotalOver(items, keys) == CountOf(items[x]) + TotalOver(items, keys - {x})
    decreases keys
  {
    var k :| k in keys && TotalOver(items, keys) == CountOf(items[k]) + TotalOver(items, keys - {k});
    if k != x {
      TotalTake(items, keys - {k}, x);
      TotalTake(items, keys - {x}, k);
      assert keys - {k} - {x} == keys - {x} - {k};
    }
  }

  // ------------------------------------------------------------------------ validate_items

  ghost predicate AllAccepted(items: map<string, Value>, names: set<string>, machine: Machine) {
    forall name | name in names :: name in items && EntryAccepted(name, items[name], machine)
  }

  /** The requests validation lets through. */
  ghost predicate ItemsAccepted(items: Value, machine: Machine) {
    || items == Nil
    || (&& items.Table? && items.list == [] && items.border == 0
        && AllAccepted(items.fields, items.fields.Keys, machine)
        && |items.fields| <= 8
        && machine.slots >= 1 && machine.hasInventory
        && TotalOver(items.fields, items.fields.Keys) <= machine.slots)
  }

  lemma TotalAdd(items: map<string, Value>, done: set<string>, name: string)
    requires done <= items.Keys && name in items && name !in done
    ensures TotalOver(items, done + {name}) == TotalOver(items, done) + CountOf(items[name])
  {
    TotalTake(items, done + {name}, name);
    assert done + {name} - {name} == done;
  }

  lemma OneMoreAccepted(items: map<string, Value>, done: set<string>, name: string, machine: Machine)
    requires name in items
    ensures AllAccepted(items, done + {name}, machine) <==>
            AllAccepted(items, done, machine) && EntryAccepted(name, items[name], machine)
  {
  }

  /** The loop of `validate_items` over the requested entries, in any order. */
  method ValidateEntries(items: map<string, Value>, machine: Machine) returns (issues: nat, kinds: nat, total: nat)
    ensures issues == 0 <==> AllAccepted(items, items.Keys, machine)
    ensures kinds == |items| && (issues == 0 ==> total == TotalOver(items, items.Keys))
  {
    issues, kinds, total := 0, 0, 0;
    var remaining := items.Keys;
    ghost var done: set<string> := {};
    while remaining != {}
      invariant done !! remaining && done + remaining == items.Keys
      invariant kinds == |done| && (issues == 0 ==> total == TotalOver(items, done))
      invariant issues == 0 <==> AllAccepted(items, done, machine)
      decreases remaining
    {
      var name :| name in remaining;
      var count := items[name];
      TotalAdd(items, done, name);
      OneMoreAccepted(items, done, name, machine);
      kinds := kinds + 1;
      if |name| < 1 || |name| > 200 || !IntegerIn(count, 1, MAX_MODULE_COUNT) {
        issues := issues + 1;
      } else {
        total := total + count.number.Floor;
        if !machine.takes(name) {
          issues := issues + 1;
        }
      }
      remaining, done := remaining - {name}, done + {name};
    }
    assert done == items.Keys;
  }

  /** `validate_items`: the number of issues it raises. */
  method ValidateItems(items: Value, machine: Machine) returns (issues: nat)
    ensures issues == 0 <==> ItemsAccepted(items, machine)
  {
    issues := 0;
    if items == Nil {
      return;
    }
    if !items.Table? {
      return 1;
    }
    var kinds, total;
    issues, kinds, total := ValidateEntries(items.fields, machine);
    if |items.list| > 0 || items.border > 0 {
      issues := issues + 1;
    }
    if kinds > MAX_MODULE_KINDS {
      issues := issues + 1;
    }
    if machine.slots < 1 || !machine.hasInventory {
      issues := issues + 1;
    } else if total > machine.slots {
      issues := issues + 1;
    }
  }

  /** The canonical copy of an accepted request is the request, whatever order its
      entries were enumerated in. */
  lemma AcceptedItemsAreCopiedWhole(items: Value, machine: Machine, copy: Value)
    requires items.Table? && ItemsAccepted(items, machine)
    requires CountsCopyOf(items, MAX_MODULE_KINDS, copy)
    ensures Fields(copy) == items.fields
  {
    assert Numbers(items) == items.fields;
    SubmapOfSameSize(Fields(copy), items.fields);
  }

  // -------------------------------------------------------------------------- name order

  /** Byte order of strings. */
  predicate Leq(a: string, b: string) {
    a == [] || (b != [] && (a[0] < b[0] || (a[0] == b[0] && Leq(a[1..], b[1..]))))
  }

  lemma {:induction false} LeqTotal(a: string, b: string)
    ensures Leq(a, b) || Leq(b, a)
  {
    if a != [] && b != [] && a[0] == b[0] {
      LeqTotal(a[1..], b[1..]);
    }
  }

  lemma {:induction false} LeqAntisymmetric(a: string, b: string)
    requires Leq(a, b) && Leq(b, a)
    ensures a == b
  {
    if a != [] {
      LeqAntisymmetric(a[1..], b[1..]);
      assert a == [a[0]] + a[1..] && b == [b[0]] + b[1..];
    }
  }

  lemma {:induction false} LeqTransitive(a: string, b: string, c: string)
    requires Leq(a, b) && Leq(b, c)
    ensures Leq(a, c)
  {
    if a != [] && b[0] == a[0] && c[0] == b[0] {
      LeqTransitive(a[1..], b[1..], c[1..]);
    }
  }

  /** It is the order of the first byte in which the two differ; a prefix comes first. */
  lemma {:induction false} LeqIsByteOrder(a: string, b: string)
    ensures Leq(a, b) <==> a <= b || exists k :: DifferAt(a, b, k) && a[k] < b[k]
  {
    if a != [] && b != [] {
      if a[0] == b[0] {
        LeqIsByteOrder(a[1..], b[1..]);
        assert a == [a[0]] + a[1..] && b == [b[0]] + b[1..];
        if k :| DifferAt(a[1..], b[1..], k) && a[1..][k] < b[1..][k] {
          assert a[..k + 1] == [a[0]] + a[1..][..k] && b[..k + 1] == [b[0]] + b[1..][..k];
          assert DifferAt(a, b, k + 1);
        }
        if k :| DifferAt(a, b, k) && a[k] < b[k] {
          assert a[..k][1..] == a[1..][..k - 1] && b[..k][1..] == b[1..][..k - 1];
          assert DifferAt(a[1..], b[1..], k - 1);
        }
      } else {
        assert DifferAt(a, b, 0);
        forall k | DifferAt(a, b, k) ensures k == 0 {
          FirstDifference(a, b, k);
        }
      }
    }
  }

  lemma FirstDifference(a: string, b: string, k: int)
    requires DifferAt(a, b, k)
    ensures a[0] == b[0] || k == 0
  {
    if k > 0 {
      assert a[..k][0] == b[..k][0];
    }
  }

  ghost predicate DifferAt(a: string, b: string, k: int) {
    0 <= k < |a| && k < |b| && a[..k] == b[..k] && a[k] != b[k]
  }

  ghost predicate Ascending(names: seq<string>) {
    forall i, j | 0 <= i < j < |names| :: Leq(names[i], names[j])
  }

  function Insert(name: string, sorted: seq<string>): seq<string> {
    if sorted == [] || Leq(name, sorted[0]) then [name] + sorted
    else [sorted[0]] + Insert(name, sorted[1..])
  }

  lemma {:induction false} InsertSorts(name: string, sorted: seq<string>)
    requires Ascending(sorted)
    ensures Ascending(Insert(name, sorted))
    ensures forall x :: x in Insert(name, sorted) <==> x == name || x in sorted
  {
    if sorted == [] {
    } else if Leq(name, sorted[0]) {
      forall j | 0 <= j < |sorted| ensures Leq(name, sorted[j]) {
        if j > 0 { LeqTransitive(name, sorted[0], sorted[j]); }
      }
    } else {
      LeqTotal(name, sorted[0]);
      var tail := Insert(name, sorted[1..]);
      InsertSorts(name, sorted[1..]);
      assert sorted == [sorted[0]] + sorted[1..];
      forall x | x in tail ensures Leq(sorted[0], x) {
        if x != name {
          var j :| 0 <= j < |sorted[1..]| && sorted[1..][j] == x;
          assert sorted[j + 1] == x;
        }
      }
    }
  }

  lemma {:induction false} InsertDistinct(name: string, sorted: seq<string>)
    requires Ascending(sorted) && Distinct(sorted) && name !in sorted
    ensures Distinct(Insert(name, sorted))
  {
    if sorted != [] && !Leq(name, sorted[0]) {
      assert sorted == [sorted[0]] + sorted[1..] && sorted[0] !in sorted[1..];
      InsertDistinct(name, sorted[1..]);
      InsertSorts(name, sorted[1..]);
    }
  }

  /** `table.sort(names)`. */
  method SortNames(names: seq<string>) returns (sorted: seq<string>)
    requires Distinct(names)
    ensures Ascending(sorted) && Distinct(sorted) && Elements(sorted) == Elements(names)
  {
    sorted := [];
    for i := 0 to |names|
      invariant Ascending(sorted) && Distinct(sorted) && Elements(sorted) == Elements(names[..i])
    {
      InsertSorts(names[i], sorted);
      assert names[i] !in Elements(names[..i]) && names[i] !in Elements(sorted);
      InsertDistinct(names[i], sorted);
      assert names[..i + 1] == names[..i] + [names[i]];
      assert Elements(names[..i + 1]) == Elements(names[..i]) + {names[i]};
      assert Elements(Insert(names[i], sorted)) == Elements(sorted) + {names[i]};
      sorted := Insert(names[i], sorted);
    }
    assert names[..|names|] == names;
  }

  /** A set of names has one ascending list. */
  lemma {:induction false} AscendingIsUnique(a: seq<string>, b: seq<string>)
    requires Ascending(a) && Ascending(b) && Distinct(a) && Distinct(b) && Elements(a) == Elements(b)
    ensures a == b
  {
    DistinctCount(a);
    DistinctCount(b);
    if a != [] {
      assert a[0] in Elements(a) && a[0] in b;
      assert b != [] && b[0] in Elements(b) && b[0] in a;
      FirstIsLeast(a, b[0]);
      FirstIsLeast(b, a[0]);
      LeqAntisymmetric(a[0], b[0]);
      assert a == [a[0]] + a[1..] && b == [b[0]] + b[1..];
      assert a[0] !in a[1..] && b[0] !in b[1..];
      assert Elements(a[1..]) == Elements(a) - {a[0]} && Elements(b[1..]) == Elements(b) - {b[0]};
      AscendingIsUnique(a[1..], b[1..]);
    }
  }

  lemma FirstIsLeast(names: seq<string>, x: string)
    requires Ascending(names) && x in names
    ensures Leq(names[0], x)
  {
    var j :| 0 <= j < |names| && names[j] == x;
    if j == 0 { LeqTotal(x, x); }
  }

  // --------------------------------------------------------------------------- the plans

  /** The module slots given to one module, in the order they were taken. */
  datatype Plan = Plan(name: string, stacks: seq<nat>)

  function Range(from: nat, count: nat): seq<nat> {
    seq(count, i requires 0 <= i < count => from + i)
  }

  function PlansFor(names: seq<string>, items: map<string, Value>, from: nat): seq<Plan>
    requires forall name | name in names :: name in items
  {
    if names == [] then []
    else
      var count := CountOf(items[names[0]]);
      [Plan(names[0], Range(from, count))] + PlansFor(names[1..], items, from + count)
  }

  function Stacks(plans: seq<Plan>): seq<nat> {
    if plans == [] then [] else plans[0].stacks + Stacks(plans[1..])
  }

  /** `insert_plans` on the counts of an accepted request. */
  method InsertPlans(items: map<string, Value>) returns (plans: seq<Plan>, ghost names: seq<string>)
    requires forall name | name in items :: IntegerIn(items[name], 1, MAX_MODULE_COUNT)
    ensures Ascending(names) && Distinct(names) && Elements(names) == items.Keys
    ensures forall name | name in names :: name in items
    ensures plans == PlansFor(names, items, 0)
  {
    var listed := ListNames(items.Keys);
    var sorted := SortNames(listed);
    names := sorted;
    assert forall name | name in sorted :: name in Elements(sorted);
    plans := [];
    var stack := 0;
    for k := 0 to |sorted|
      invariant plans + PlansFor(sorted[k..], items, stack) == PlansFor(sorted, items, 0)
    {
      NextPlan(plans, sorted, k, items, stack);
      var positions;
      positions, stack := TakeStacks(stack, items[sorted[k]].number.Floor);
      plans := plans + [Plan(sorted[k], positions)];
    }
  }

  /** The inner loop of `insert_plans`. */
  method TakeStacks(first: nat, count: nat) returns (positions: seq<nat>, stack: nat)
    ensures positions == Range(first, count) && stack == first + count
  {
    positions, stack := [], first;
    for taken := 0 to count
      invariant positions == Range(first, taken) && stack == first + taken
    {
      positions := positions + [stack];
      stack := stack + 1;
    }
  }

  /** One round of the outer loop moves one plan from the rest to the front. */
  lemma NextPlan(plans: seq<Plan>, names: seq<string>, k: nat, items: map<string, Value>, from: nat)
    requires k < |names| && forall name | name in names :: name in items
    ensures var count := CountOf(items[names[k]]);
            plans + [Plan(names[k], Range(from, count))] + PlansFor(names[k + 1..], items, from + count)
            == plans + PlansFor(names[k..], items, from)
  {
    assert names[k..][1..] == names[k + 1..];
  }

  /** The names, in whatever order `pairs` gives them. */
  method ListNames(keys: set<string>) returns (names: seq<string>)
    ensures Distinct(names) && Elements(names) == keys
  {
    names := [];
    var remaining := keys;
    while remaining != {}
      invariant Distinct(names) && Elements(names) !! remaining && Elements(names) + remaining == keys
      decreases remaining
    {
      var name :| name in remaining;
      assert name !in Elements(names);
      names := names + [name];
      remaining := remaining - {name};
    }
  }

  /** Every peer lays the same request out the same way. */
  lemma PlansAreDeterministic(items: map<string, Value>, a: seq<string>, b: seq<string>)
    requires Ascending(a) && Distinct(a) && Elements(a) == items.Keys
    requires Ascending(b) && Distinct(b) && Elements(b) == items.Keys
    ensures a == b
    ensures (forall name | name in a :: name in items) && PlansFor(a, items, 0) == PlansFor(b, items, 0)
  {
    AscendingIsUnique(a, b);
    assert forall name | name in a :: name in Elements(a);
  }

  lemma {:induction false} PlansAreConsecutive(names: seq<string>, items: map<string, Value>, from: nat)
    requires Distinct(names) && forall name | name in names :: name in items
    ensures Stacks(PlansFor(names, items, from)) == Range(from, TotalOver(items, Elements(names)))
  {
    if names != [] {
      var count := CountOf(items[names[0]]);
      TailElements(names);
      PlansAreConsecutive(names[1..], items, from + count);
      TotalTake(items, Elements(names), names[0]);
      FirstPlan(names, items, from);
      RangeJoins(from, count, TotalOver(items, Elements(names[1..])));
    }
  }

  lemma TailElements(names: seq<string>)
    requires names != [] && Distinct(names)
    ensures names[0] !in names[1..] && Elements(names) - {names[0]} == Elements(names[1..])
  {
    assert names == [names[0]] + names[1..];
  }

  lemma FirstPlan(names: seq<string>, items: map<string, Value>, from: nat)
    requires names != [] && forall name | name in names :: name in items
    ensures var count := CountOf(items[names[0]]);
            Stacks(PlansFor(names, items, from)) == Range(from, count) + Stacks(PlansFor(names[1..], items, from + count))
  {
    var count := CountOf(items[names[0]]);
    StacksUnfold(Plan(names[0], Range(from, count)), PlansFor(names[1..], items, from + count));
  }

  lemma StacksUnfold(first: Plan, rest: seq<Plan>)
    ensures Stacks([first] + rest) == first.stacks + Stacks(rest)
  {
    assert ([first] + rest)[1..] == rest;
  }

  lemma RangeJoins(from: nat, count: nat, more: nat)
    ensures Range(from, count) + Range(from + count, more) == Range(from, count + more)
  {
  }

  lemma {:induction false} PlansCoverNames(names: seq<string>, items: map<string, Value>, from: nat)
    requires forall name | name in names :: name in items
    ensures |PlansFor(names, items, from)| == |names|
    ensures forall i | 0 <= i < |names| :: PlansFor(names, items, from)[i].name == names[i]
                                           && |PlansFor(names, items, from)[i].stacks| == CountOf(items[names[i]])
  {
    if names != [] {
      PlansCoverNames(names[1..], items, from + CountOf(items[names[0]]));
    }
  }

  /** An accepted request fills slots 0 to total-1 of the machine, each once, and every
      module gets exactly the count asked for. */
  lemma PlansFitMachine(items: Value, machine: Machine, names: seq<string>)
    requires items.Table? && ItemsAccepted(items, machine)
    requires Ascending(names) && Distinct(names) && Elements(names) == items.fields.Keys
    ensures forall name | name in names :: name in items.fields
    ensures var plans := PlansFor(names, items.fields, 0);
            var total := TotalOver(items.fields, items.fields.Keys);
            && Stacks(plans) == Range(0, total)
            && (forall i | 0 <= i < |Stacks(plans)| :: Stacks(plans)[i] == i < machine.slots)
            && |plans| == |names|
            && forall i | 0 <= i < |names| ::
                 plans[i].name == names[i] && |plans[i].stacks| as real == items.fields[names[i]].number
  {
    assert forall name | name in names :: name in Elements(names);
    PlansAreConsecutive(names, items.fields, 0);
    PlansCoverNames(names, items.fields, 0);
    forall i | 0 <= i < |names| ensures CountOf(items.fields[names[i]]) as real == items.fields[names[i]].number {
      assert EntryAccepted(names[i], items.fields[names[i]], machine);
    }
  }
}
