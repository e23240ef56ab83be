/** Whole runs of library requests on the mutable root. */
module RootRuns {
  import opened LuaValues
  import opened Migration
  import opened Library
  import opened LibraryRoot

  /** A library request, with what the engine decides about a layout to be saved. */
  datatype Operation =
    | SaveLayout(layout: Value, valid: bool, toCursor: bool, allowCursor: bool, failure: Option<string>)
    | DropBlueprint(id: Value)
    | NewBook(name: Value, ids: Value, description: Value)
    | EditBook(payload: Value)
    | DropBook(id: Value)

  datatype Arrival = Arrival(player: nat, now: Value, operation: Operation)

  /** A layout called valid is one. */
  ghost predicate Judged(operation: Operation, encode: Encoder) {
    operation.SaveLayout? && operation.valid ==> Validated(operation.layout, encode)
  }

  /** The save gets as far as the library. */
  predicate GoesThrough(operation: Operation) {
    operation.SaveLayout? && operation.valid && (operation.toCursor ==> operation.allowCursor)
  }

  /** A save that goes through is a sound call, and it is served as one. */
  method ServeSave(root: AiRoot, player: nat, operation: Operation, now: Value) returns (ghost call: Call)
    requires root.Separate() && TableKept(root.Table(player), player, root.nextBlueprintId)
    requires GoesThrough(operation) && Judged(operation, root.encode)
    modifies root, root.Own(player)
    ensures call.player == player && Sound(World(map[], old(root.nextBlueprintId)), call, root.encode)
    ensures root.Served(call) && root.ObjectsKept()
  {
    var saved, canonical, found := root.Save(player, operation.layout, true, operation.toCursor, operation.allowCursor, operation.failure, now);
    ValidatedName(operation.layout, root.encode, canonical);
    var failed := if operation.toCursor then operation.failure else None;
    call := Call(player, now, Request.Save(canonical, root.encode(canonical).value, failed.None?));
  }

  /** A save on a valid root leaves a valid root. */
  method PerformSave(root: AiRoot, player: nat, operation: Operation, now: Value)
    requires root.Valid() && operation.SaveLayout? && Judged(operation, root.encode)
    modifies root, root.Own(player)
    ensures root.Valid() && root.OthersKept(player) && root.ObjectsKept()
    ensures old(root.nextBlueprintId) <= root.nextBlueprintId
  {
    assert TableKept(root.Table(player), player, root.nextBlueprintId);
    if GoesThrough(operation) {
      var call := ServeSave(root, player, operation, now);
      root.CallKeepsValid(call);
    } else {
      var refused, _, _ := root.Save(
        player, operation.layout, operation.valid, operation.toCursor, operation.allowCursor, operation.failure, now);
    }
  }

  method Perform(root: AiRoot, player: nat, operation: Operation, now: Value)
    requires root.Valid() && Judged(operation, root.encode)
    modifies root, root.Own(player)
    ensures root.Valid() && root.OthersKept(player) && root.ObjectsKept()
    ensures old(root.nextBlueprintId) <= root.nextBlueprintId
  {
    assert TableKept(root.Table(player), player, root.nextBlueprintId);
    match operation
    case SaveLayout(_, _, _, _, _) =>
      PerformSave(root, player, operation, now);
    case DropBlueprint(id) =>
      var receipt, found := root.Delete(player, id, now);
      root.CallKeepsValid(Call(player, now, Request.Delete(id)));
    case NewBook(name, ids, description) =>
      var book, found := root.CreateBook(player, name, ids, description, now);
      root.CallKeepsValid(Call(player, now, Request.CreateBook(name, ids, description)));
    case EditBook(payload) =>
      var book, found := root.UpdateBook(player, payload, now);
      root.CallKeepsValid(Call(player, now, Request.UpdateBook(payload)));
    case DropBook(id) =>
      var book, found := root.DeleteBook(player, id, now);
      root.CallKeepsValid(Call(player, now, Request.DeleteBook(id)));
  }

  /** However many requests arrive, from whatever players: the root stays valid, nobody
      loses their inbox object, and a player who asked for nothing has the table it had. */
  method PerformAll(root: AiRoot, arrivals: seq<Arrival>)
    requires root.Valid() && forall i | 0 <= i < |arrivals| :: Judged(arrivals[i].operation, root.encode)
    modifies root, root.Objects()
    ensures root.Valid() && root.ObjectsKept()
    ensures old(root.nextBlueprintId) <= root.nextBlueprintId
    ensures forall q: nat | (forall i | 0 <= i < |arrivals| :: arrivals[i].player != q) :: root.Table(q) == old(root.Table(q))
  {
    for k := 0 to |arrivals|
      invariant root.Valid() && root.ObjectsKept()
      invariant old(root.nextBlueprintId) <= root.nextBlueprintId
      invariant forall q: nat | (forall i | 0 <= i < k :: arrivals[i].player != q) :: root.Table(q) == old(root.Table(q))
    {
      Perform(root, arrivals[k].player, arrivals[k].operation, arrivals[k].now);
    }
  }
}
