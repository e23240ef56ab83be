# Sceatorio, verified

A Dafny model of the parts of Sceatorio that keep state: the blueprint library and inbox
window of the Factorio mod, its event ring, evolution ledger and AI output ports, the
companion server's transport, pairing guard and credential store, and two checked
algorithms (PNG alpha statistics, the clamped water ring). Code that works in place is
modelled by classes and loops; each is tied to a value-level specification, and the
theorems are about whole runs of that specification.

Verify everything with `dafny verify dfyconfig.toml`.

## Layout

| files | what they model |
|---|---|
| `LuaValues`, `KeyedLists`, `OrderedMaps`, `Extrema` | Lua values, a list with its index table, JavaScript's insertion-ordered `Map`, minima |
| `Canonical`, `Layouts`, `Whitelist` | the whitelist copy and the canonical layout, as relations over every `pairs` order, with the loops that meet them, and a second account with every key written out |
| `Inboxes`, `Books`, `Ids`, `Library` | one inbox, its books, identifiers, and runs of calls by many players |
| `Outcomes`, `Chronicle` | what each call leaves behind, told without the functions that compute it, and why every list is in the order of its numbers |
| `InboxStore`, `LibraryRoot`, `RootRuns` | the same library as mutable tables: one inbox, the root that opens, rebuilds and keeps apart the players' tables, and runs of requests on it |
| `Migration`, `MigrationOrder`, `MigrationLaws`, `Survival` | rebuilding a stored inbox, what it keeps and in which order, what a second migration does, which saved blueprints it changes or loses |
| `InboxWindow`, `Reconciliation`, `Sessions` | the inbox window: list, fill, release, and whole sessions interleaved with calls |
| `ModulePlans` | module requests: validation, copy and insertion plans |
| `EventRing` | the event ring against the unbounded log it stands for |
| `Transport` | the correlated request transport as a step machine and as a class |
| `PairGuard`, `Throttling`, `Credentials` | the pairing guard, its harder run theorems, and the credential store |
| `Evolution` | the evolution ledger and its schema migration |
| `OutputPorts` | rate-limited, expiring output ports |
| `PngFilters`, `PngStats`, `PngFiles` | PNG filtering (sections 9.2 to 9.4 of the W3C PNG specification), statistics, chunk walks |
| `WaterBorder` | the clamped annulus search |

## Findings

Where an expected property holds only under a condition, the condition is proved exactly.

- The canonicaliser is not idempotent on every layout. An optional list with a positive
  `#` and nothing in its first slot is stored as an empty table and dropped by the next
  pass. `Layouts.CanonicalTwice` proves idempotence if and only if no optional list is
  hollow, `Survival.HollowExample` gives such a layout that passes validation, and
  `MigrationLaws.MigrationTwice` says what this means for a second migration.
- A blueprint that was legal when stored can be lost by a migration. Validation counts
  entities with `#`, the stored copy with `ipairs`: an entity list with a positive `#` and
  an empty first slot is stored with no entities, and a later migration drops the record
  (`Survival.UnseenEntitiesAreLost`). A saved record survives if and only if `ipairs` saw
  between 1 and 512 entities (`Survival.SavedSurvivesExactly`), and is left exactly as it is
  if and only if, besides, no optional list was hollow (`Survival.SavedIsSettled`).
- A window closed straight after it was filled can remove a record: a book stack whose
  label the engine refused is in the slots but counts as missing
  (`Reconciliation.UnlabelledBookIsLost`). `Reconciliation.FillThenClose` characterises
  those rows, `OpenCloseChangesNothing` the case without them.
- A walk over the window that raises part way has already handed the foreign stacks before
  that slot to the player, yet leaves them in the window, so the next walk hands them over
  again. `InboxWindow.FailedWalkDuplicates` proves this happens if and only if a foreign
  stack lay before the slot that raised. After a fill that failed so, the manifest is
  gone and the next walk hands over every stack (`InboxWindow.EmptyManifestReturnsAll`).
- The pairing guard's failure cap holds for attempts that finish before the next is
  admitted. With overlap it can be exceeded by at most the overlap
  (`PairGuard.FailuresSpanAWindow`), and that bound is reached for every cap and width
  (`Throttling.OverlapBoundIsTight`).
- A verifier file that was not written by the store may leave several credentials of one
  player live (`Credentials.SharedPlayerLoadsUnsound`). Loading a file is sound if and only
  if, among the unexpired entries that are the last of their identifier, every grant names
  its own identifier and no two belong to one player (`Credentials.LoadIsSoundExactly`).
- A request that times out leaves its abort listener attached until the caller's signal
  fires, even after the transport is closed (`Transport.TimeoutLeavesListener`);
  `Transport.ListensExactly` says exactly when a listener is attached.
- An output may still show its signals 28 ticks past its clear tick, and goes in the tick
  after (`OutputPorts.DeadlineIsMissedBy28`), never later
  (`OutputPorts.NothingOutlivesItsDeadline`); the rate limit nevertheless survives the
  sweeps that forget records (`OutputPorts.ForgettingIsHarmless`).

## Model

| member | source | states |
|---|---|---|
| `Canonical.CopyShape` | src/game/aiBlueprints.lua:175-227 | the copy loops meet the order-free relation `CopyOf`, for every enumeration order of `pairs` |
| `Canonical.CopyItems` | src/game/aiBlueprints.lua:194-207 | an array field keeps its first `max` entries, each copied by shape, non-table entries as empty tables |
| `Canonical.CopyCounts` | src/game/aiBlueprints.lua:208-224 | a count map keeps string keys with numeric counts, at most `max` of them, and all of them when they fit |
| `Canonical.CopyFixed` | src/game/aiBlueprints.lua:175-227 | a second pass over a copy returns that copy, whatever order either pass enumerated in |
| `Canonical.CopyIsFixed` | src/game/aiBlueprints.lua:175-227 | a copy is a legal result of copying itself, so the second pass exists as well as being unique |
| `Canonical.EmptyCopy` | src/game/aiBlueprints.lua:175-227 | an empty table copies to nil, which is why hollow tables disappear on a later pass |
| `Canonical.CopyDependsOnKeys` | src/game/aiBlueprints.lua:86-92 | only declared keys of the source can influence the copy; unknown keys are dropped |
| `Canonical.WhitelistIsSeparate` | src/game/aiBlueprints.lua:93-173 | in the shipped whitelist no key is declared as two kinds at any depth, which the copy relies on |
| `Layouts.CanonicalLayout` | src/game/aiBlueprints.lua:229-286 | `canonical_layout` raises exactly on unreadable layouts and otherwise yields a canonical form in the sense of `LayoutOf` |
| `Layouts.CanonicalIsSolid` | src/game/aiBlueprints.lua:229-286 | every canonical layout can be canonicalised again and has no hollow list |
| `Layouts.EntityTwice` | src/game/aiBlueprints.lua:235-272 | canonicalising a stored entity again changes it exactly when its connection list was hollow |
| `Layouts.CanonicalTwice` | src/game/aiBlueprints.lua:229-286 | the canonicaliser is idempotent on a layout if and only if no optional list of the layout is hollow |
| `Layouts.CanonicalSettles` | src/game/aiBlueprints.lua:229-286 | two passes always settle any layout |
| `Layouts.CanonicalIsFixed` | src/game/aiBlueprints.lua:229-286 | the canonical form of a layout without hollow lists is a canonical form of itself |
| `Layouts.FixedIsUnique` | src/game/aiBlueprints.lua:229-286 | on such a form every pass is the identity, for any enumeration order |
| `Whitelist.CanonicalWrittenOut` | src/game/aiBlueprints.lua:93-286 | with every key and cap written out: a table is a canonical form of a layout if and only if it keeps exactly the declared keys of it and of every nested table, as many list entries as declared, and nothing else |
| `Whitelist.DeclaredIsKept` | src/game/aiBlueprints.lua:93-286 | a layout that carries declared keys only, within the caps and without a hollow list, is its own and only canonical form |
| `Whitelist.ReadableExactly` | src/game/aiBlueprints.lua:229-286 | which layouts `canonical_layout` returns on, written out: everything it indexes is a table or a string |
| `Inboxes.EvictionIsMinimal` | src/game/aiBlueprints.lua:1496-1512 | what stays are the newest records in their old order, the newcomer fits the record cap and the byte cap, and one eviction fewer would not have made room |
| `Inboxes.EvictedLeaveBooks` | src/game/aiBlueprints.lua:1387-1400 | no book names an evicted record afterwards and every book keeps its other members in order |
| `Inboxes.DropKeepsWellFormed` | src/game/aiBlueprints.lua:1496-1512 | an inbox is well formed after any number of oldest-first evictions |
| `Inboxes.SaveKeepsWellFormed` | src/game/aiBlueprints.lua:1522-1565 | saving a sound record under a new identifier keeps caps, byte total, uniqueness and references |
| `Inboxes.DeleteKeepsWellFormed` | src/game/aiBlueprints.lua:1633-1657 | deleting keeps the inbox well formed, and the byte subtraction never needs its clamp at zero |
| `Outcomes.SaveOutcome` | src/game/aiBlueprints.lua:1496-1565 | a save that goes through removes the shortest run at the front of the order that makes room and puts the saved layout behind all the rest, which stays as it was |
| `Outcomes.DeleteOutcome` | src/game/aiBlueprints.lua:1633-1657 | a deleted blueprint leaves table, order, byte total and every book, which keeps its other members in order and is stamped only if it lost one; nothing else changes |
| `Outcomes.DeleteBookOutcome` | src/game/aiBlueprints.lua:1980-1999 | a deleted book leaves shelf and order; every blueprint and every other book stays |
| `Outcomes.CreateBookOutcome` | src/game/aiBlueprints.lua:1815-1849 | a new book stands behind the others with the listed members, exactly when name, description and list are legal and fewer than twenty books exist; otherwise nothing changes |
| `Outcomes.UpdateBookOutcome` | src/game/aiBlueprints.lua:1882-1976 | an edit replaces the one book it names, or changes nothing at all |
| `Outcomes.RenameOutcome` | src/game/aiBlueprints.lua:1894-1909 | when a rename is accepted and what it leaves; an empty description clears it |
| `Outcomes.AddOutcome` | src/game/aiBlueprints.lua:1910-1926 | when an addition is accepted, and that the whole list then stands at the requested place, by default last, between the old members |
| `Outcomes.RemoveOutcome` | src/game/aiBlueprints.lua:1927-1952 | a removal is accepted exactly for one to fifty different members, and takes out exactly those |
| `Outcomes.ReorderOutcome` | src/game/aiBlueprints.lua:1953-1970 | a reorder is accepted exactly for the members in some order, and leaves them in that order |
| `Outcomes.CollectRefusal` | src/game/aiBlueprints.lua:1777-1803 | with which error a list of new members is refused: that of its first bad entry |
| `Outcomes.EditRefusal` | src/game/aiBlueprints.lua:1882-1976 | with which error an edit is refused |
| `Outcomes.MemberListRefusal` | src/game/aiBlueprints.lua:1927-1970 | with which error a list of members to remove, or a new order, is refused |
| `InboxStore.Pruned` | src/game/aiBlueprints.lua:1392-1397 | the downward removal loop is an order-preserving filter and reports exactly whether anything was removed |
| `InboxStore.PlayerInbox.ForgetMember` | src/game/aiBlueprints.lua:1387-1400 | every book drops the member, stamping only the books it touches |
| `InboxStore.PlayerInbox.EvictOldestUntilFit` | src/game/aiBlueprints.lua:1496-1512 | the loop evicts exactly the least number of oldest records that makes room and returns them in order |
| `InboxStore.PlayerInbox.Delete` | src/game/aiBlueprints.lua:1633-1657 | an unknown identifier changes nothing; a known one is taken out of order, table, byte total and books |
| `InboxStore.PlayerInbox.UpdateBook` | src/game/aiBlueprints.lua:1882-1976 | an edit is all or nothing: an error leaves the inbox unchanged, success replaces that one book |
| `InboxStore.PlayerInbox.DeleteBook` | src/game/aiBlueprints.lua:1980-1999 | deleting a book removes it from table and order and leaves every blueprint |
| `InboxStore.ScanIds` | src/game/aiBlueprints.lua:1777-1803 | the scanning loop answers as the list-level scan does, including which error comes first |
| `InboxStore.AddMembers` | src/game/aiBlueprints.lua:1910-1926 | the repeated shifting inserts splice the additions at the requested position |
| `InboxStore.RemoveMembers` | src/game/aiBlueprints.lua:1927-1952 | the removal loops filter the member list |
| `InboxStore.ReorderMembers` | src/game/aiBlueprints.lua:1953-1970 | the reorder loop accepts exactly what the list-level reorder accepts |
| `LibraryRoot.AiRoot.OpenInbox` | src/game/aiBlueprints.lua:1471-1494 | a missing inbox is created, an outdated table is rebuilt by the migration, a current one is handed out as it is; no other player's table is touched |
| `LibraryRoot.OpenedIsKept` | src/game/aiBlueprints.lua:1471-1494 | whatever a player's table opens to is well formed and leaves every future identifier unused, for an outdated table by the migration's own guarantee |
| `LibraryRoot.AiRoot.Save` | src/game/aiBlueprints.lua:1522-1565 | the answer, error or receipt, is that of the first failing check or of the stored record; on a receipt the table lists the old order less the evicted front, then the receipt's identifier, which holds the canonical layout; one step of the opened inbox, and no other table |
| `LibraryRoot.AiRoot.Delete` | src/game/aiBlueprints.lua:1633-1657 | the error or receipt, one step of the opened inbox, and no other table |
| `LibraryRoot.AiRoot.CreateBook` | src/game/aiBlueprints.lua:1815-1849 | the error of the first failing check or the new book, refused at the cap instead of evicting; one step of the opened inbox, and no other table |
| `LibraryRoot.CreateRefusal` | src/game/aiBlueprints.lua:1815-1833 | with which error a new book is refused: that of the first failing check |
| `LibraryRoot.SaveAnswersWhen` | src/game/aiBlueprints.lua:1531-1543 | when a save is answered with a receipt, and with which error otherwise |
| `LibraryRoot.AiRoot.UpdateBook` | src/game/aiBlueprints.lua:1882-1976 | the error or the edited book; one step of the opened inbox, an error changing nothing in it, and no other table |
| `LibraryRoot.AiRoot.DeleteBook` | src/game/aiBlueprints.lua:1980-1999 | the error or the removed book; one step of the opened inbox, and no other table |
| `LibraryRoot.AiRoot.CallKeepsValid` | src/game/aiBlueprints.lua:1387-1999 | a call that does so keeps the whole root valid: no two players share a table, every table well formed or due for a rebuild, every future identifier unused |
| `RootRuns.Perform` | src/game/aiOperations.lua:163-206 | one library request of whatever kind keeps the mutable root valid, keeps every inbox object and touches no other player's table |
| `RootRuns.PerformAll` | src/game/aiOperations.lua:163-206 | so does any sequence of requests by any players, and a player who asked for nothing ends with the table it had |
| `Books.ScanExact` | src/game/aiBlueprints.lua:1777-1803 | an identifier list is accepted exactly when it is short enough, all strings, without repetition, all known and none taken; it is then used unchanged |
| `Books.CollectExact` | src/game/aiBlueprints.lua:1777-1803 | collected members are 1 to 50 distinct stored identifiers, none already taken, in the order given |
| `Books.AddThenRemove` | src/game/aiBlueprints.lua:1924-1952 | taking the added run out again restores the member list, wherever it was inserted |
| `Books.RemoveUndoesAdd` | src/game/aiBlueprints.lua:1910-1952 | a remove edit with the payload of an accepted add is accepted and restores the book |
| `Books.ReorderIsPermutation` | src/game/aiBlueprints.lua:1953-1970 | a reorder is accepted if and only if it lists a permutation of the current members |
| `Books.EditKeepsSound` | src/game/aiBlueprints.lua:1882-1976 | every accepted edit leaves at most 50 distinct, stored members and legal texts |
| `Ids.IdsInjective` | src/game/aiBlueprints.lua:1496-1565 | identifiers of different players, numbers or kinds differ |
| `Library.StepKeeps` | src/game/aiBlueprints.lua:1387-1999 | whatever one step does, a migration included, the inbox stays well formed and every future identifier unused |
| `Library.MigrationIsKept` | src/game/aiBlueprints.lua:1402-1469 | rebuilding any stored table that lists no identifier still to come gives a well-formed inbox whose future identifiers are unused |
| `Library.StoredFormIsPast` | src/game/aiBlueprints.lua:1402-1469 | what the library itself stored, under any schema number, is such a table |
| `Library.NextKeepsWellFormed` | src/game/aiBlueprints.lua:1387-1999 | one call by any player keeps every inbox well formed and every identifier still to be handed out unused, and touches only the caller's inbox |
| `Library.RunKeepsWellFormed` | src/game/aiBlueprints.lua:1387-1999 | every run of save, delete, create, update, delete book and migration of stored tables, over any number of players, keeps every inbox well formed |
| `Library.UpgradeAfterAnyRun` | src/game/aiBlueprints.lua:1471-1494 | at the end of any run the schema may move on: migrating a player's own stored form keeps every inbox well formed |
| `Library.NextIsAStep` | src/game/aiBlueprints.lua:1471-1494 | a call of the many-player library is a step of the caller's inbox and leaves every other inbox as it was |
| `Library.IdentifiersAreNeverReused` | src/game/aiBlueprints.lua:1522-1565 | no identifier is ever handed out twice, not even after its record was deleted or evicted |
| `Chronicle.ListsAreChronological` | src/game/aiBlueprints.lua:1402-1565 | from an empty world, in every run: every inbox lists its blueprints, and its books, in ascending number, the order they were handed out |
| `Chronicle.EvictedWereSavedFirst` | src/game/aiBlueprints.lua:1496-1512 | every evicted number is below every number still listed: what goes was saved before what stays |
| `Chronicle.StoredFormIsOrderly` | src/game/aiBlueprints.lua:1402-1469 | what the library itself stored may be migrated in such a run, under any schema number |
| `Migration.CanonicalRecord` | src/game/aiBlueprints.lua:1317-1348 | a stored record is rebuilt from its canonicalised revisions, or given up exactly for a stated reason |
| `Migration.CanonicalBook` | src/game/aiBlueprints.lua:1356-1381 | a stored book is rebuilt with its live, first-occurrence members up to the cap |
| `Migration.MigrateInbox` | src/game/aiBlueprints.lua:1402-1469 | the four loops produce exactly the inbox the relation `MigratedTo` describes |
| `Migration.MigrationIsWellFormed` | src/game/aiBlueprints.lua:1402-1469 | whatever the stored table held, the migrated inbox is well formed, with no dangling book reference |
| `Migration.MigrationKeepsLongestSuffix` | src/game/aiBlueprints.lua:1419-1432 | the records kept are the longest suffix of the canonicalisable ones that fits both caps |
| `Migration.MigrationBringsNothing` | src/game/aiBlueprints.lua:1402-1469 | a migration keeps no blueprint or book the stored table did not list as one |
| `MigrationOrder.MigratedRecordsInOrder` | src/game/aiBlueprints.lua:1402-1432 | the records kept stand in the order the stored table first names them; any listed record missing was given up, or stood before all that is kept |
| `MigrationOrder.MigratedBooksInOrder` | src/game/aiBlueprints.lua:1434-1460 | the books kept stand in the order the stored table first names them: all that can be rebuilt, or the last twenty |
| `MigrationOrder.MigratedMembers` | src/game/aiBlueprints.lua:1356-1381 | each rebuilt book has the stored name, description and ticks, and of its stored members the live ones, first occurrences, in order: all, or the first fifty |
| `MigrationOrder.MigratedContents` | src/game/aiBlueprints.lua:1317-1348 | each rebuilt record has the stored ticks and, one for one, the stored revisions in canonical form, the name of the last and the size of them together |
| `MigrationOrder.RefusedIsGivenUp` | src/game/aiBlueprints.lua:1317-1348 | which stored entries are given up: no table, no revisions, or a layout that cannot be read or has no legal name, no entity or more than 512, or no JSON text |
| `MigrationLaws.OnlyOldSchemasMigrate` | src/game/aiBlueprints.lua:1485-1492 | an inbox the library stored is rebuilt exactly when the schema number has moved on |
| `MigrationLaws.MigrationIsIdentity` | src/game/aiBlueprints.lua:1402-1469 | migrating a well-formed inbox of settled records gives it back unchanged |
| `MigrationLaws.UnchangedExactly` | src/game/aiBlueprints.lua:1402-1469 | migrating a well-formed inbox changes nothing if and only if all its records are settled |
| `MigrationLaws.MigratedIsSettled` | src/game/aiBlueprints.lua:1402-1469 | what a migration leaves is settled if and only if no record it kept was stored with a hollow list |
| `MigrationLaws.StoredFormIsSolid` | src/game/aiBlueprints.lua:1402-1469 | what the library stored of a settled inbox has no hollow list anywhere |
| `MigrationLaws.MigrationTwice` | src/game/aiBlueprints.lua:1402-1469 | a second migration changes nothing if and only if no surviving record had been stored with a hollow list |
| `Survival.SavedIsSettled` | src/game/aiBlueprints.lua:1317-1348 | what save stores of a layout is left alone by every later pass if and only if no optional list of it was hollow and `ipairs` saw 1 to 512 entities |
| `Survival.SavedSurvivesExactly` | src/game/aiBlueprints.lua:1317-1348 | a saved blueprint survives the canonicalisation of a later migration if and only if `ipairs` saw 1 to 512 of its entities |
| `Survival.UnseenEntitiesAreLost` | src/game/aiBlueprints.lua:857-860 | a concrete layout that passes validation, has no hollow optional list and is stored in a well-formed inbox, and which every later migration loses |
| `Survival.HollowExample` | src/game/aiBlueprints.lua:266-284 | a concrete layout that passes validation, with one real entity, on which the second canonical pass does change the result |
| `Survival.HollowTableMigratesTwice` | src/game/aiBlueprints.lua:1402-1469 | from a save file with that layout the first migration keeps the blueprint and every second migration changes the result |
| `InboxWindow.InboxRecords` | src/game/aiBlueprintGui.lua:112-152 | the step-by-step list is all books newest first, then all bookless blueprints newest first, the order stated by places in the two stored lists |
| `InboxWindow.ListingIsSound` | src/game/aiBlueprintGui.lua:104-144 | on a well-formed inbox the list has at most 120 entries, no duplicates, and only stored records, so filling never truncates |
| `InboxWindow.ListingCoversInbox` | src/game/aiBlueprintGui.lua:104-144 | every book is listed, and every stored blueprint is listed or a member of a listed book |
| `InboxWindow.ListingIsNewestFirst` | src/game/aiBlueprintGui.lua:112-152 | every book comes before every blueprint, newer books before older ones, newer blueprints before older ones |
| `InboxWindow.ListedExactly` | src/game/aiBlueprintGui.lua:112-152 | exactly the books and the blueprints that no book names are listed |
| `InboxWindow.Reclaim` | src/game/aiBlueprintGui.lua:253-282 | whether the walk gets through or raises part way, it has handed back exactly the stacks it did not recognise so far, in slot order; a whole walk counts the labels exactly |
| `InboxWindow.WalkConserves` | src/game/aiBlueprintGui.lua:253-282 | what a whole walk hands back and what it recognises are together exactly the stacks in the window |
| `InboxWindow.RecognisedUpToCount` | src/game/aiBlueprintGui.lua:253-287 | of each label the walk recognises as many stacks as the manifest names, if there are that many, and none of any other label |
| `InboxWindow.FailedWalkDuplicates` | src/game/aiBlueprintGui.lua:253-282 | a walk that raised and the whole walk after it conserve the stacks if and only if nothing foreign lay before the slot that raised |
| `InboxWindow.DuplicationExample` | src/game/aiBlueprintGui.lua:253-282 | one foreign stack and an access that raises at the next slot: the player is handed the stack twice |
| `InboxWindow.EmptyManifestReturnsAll` | src/game/aiBlueprintGui.lua:354-361 | after a fill whose walk failed the manifest is empty, and the next walk hands every stack to the player, the window's own included |
| `Reconciliation.Render` | src/game/aiBlueprintGui.lua:354-386 | the rebuilding loop fills the slots as the deliveries went and its manifest names an identifier only for names rendered once |
| `Reconciliation.Window.Fill` | src/game/aiBlueprintGui.lua:354-386 | what was handed back exactly; a failed walk leaves the slots as they were and an empty manifest; otherwise slots and manifest are those of the current list, as far as there are slots when the inventory will not resize |
| `Reconciliation.FilledSlots` | src/game/aiBlueprintGui.lua:302-386 | a filled slot holds a book item for a stored book and a blueprint item for a stored blueprint, labelled with the stored name unless the engine refused the label |
| `Reconciliation.Window.Release` | src/game/aiBlueprintGui.lua:399-439 | what was handed back exactly; a failed walk leaves slots, manifest and inbox as they were; otherwise the window is emptied and, only when reconciling, exactly the doomed records are removed |
| `Reconciliation.RemoveOne` | src/game/aiBlueprintGui.lua:412-421 | deleting one manifest identifier removes that one record, blueprint or book, and keeps the inbox ready |
| `Reconciliation.CloseRemovesExactly` | src/game/aiBlueprintGui.lua:399-439 | a reconciling close removes exactly the rows this fill rendered, alone under their name, of which no blueprint or book stack with that label is left |
| `Reconciliation.HiddenMembersSurvive` | src/game/aiBlueprintGui.lua:354-439 | a blueprint that was hidden inside a book at fill time is never removed by the close |
| `Reconciliation.FillThenClose` | src/game/aiBlueprintGui.lua:354-439 | a close straight after the fill removes exactly the uniquely named rows whose stack landed without its label |
| `Reconciliation.OpenCloseChangesNothing` | src/game/aiBlueprintGui.lua:354-439 | if every stack that landed carries its label, opening and closing the window changes nothing |
| `Reconciliation.UnlabelledBookIsLost` | src/game/aiBlueprintGui.lua:354-439 | one book whose label the engine refuses: the close that follows the fill at once removes it |
| `Sessions.ReachableIsReady` | src/game/aiBlueprints.lua:1387-1999 | every inbox any run can reach, migrations of prefixed tables included, meets what the window assumes |
| `Sessions.StoredFormIsPrefixed` | src/game/aiBlueprints.lua:1402-1469 | what the library itself stored is such a table |
| `Sessions.SessionOutcome` | src/game/aiBlueprintGui.lua:354-439 | fill, then any calls by any players and any handling of the slots, then close: exactly the missing, uniquely named rows go, blueprints and books alike; hidden members and later saves stay; the inbox stays well formed |
| `Sessions.MigrationAfterAnyRun` | src/game/aiBlueprints.lua:1402-1469 | after any run, migrating an inbox changes nothing if and only if every record in it is settled, which is so whenever every layout the run saved was settled and every table it migrated had no hollow list |
| `ModulePlans.ValidateItems` | src/game/aiBlueprints.lua:539-592 | validation raises no issue exactly for requests whose names, counts, kinds and total suit the machine |
| `ModulePlans.AcceptedItemsAreCopiedWhole` | src/game/aiBlueprints.lua:208-224 | the canonical copy of an accepted request is the whole request, in any enumeration order |
| `ModulePlans.SortNames` | src/game/aiBlueprints.lua:1029-1034 | sorting yields the same names, ascending |
| `ModulePlans.LeqIsByteOrder` | src/game/aiBlueprints.lua:1029-1034 | ascending is the order of the first byte in which two names differ, a prefix first |
| `ModulePlans.AscendingIsUnique` | src/game/aiBlueprints.lua:1029-1034 | a set of names has exactly one ascending list |
| `ModulePlans.InsertPlans` | src/game/aiBlueprints.lua:1028-1045 | the loop lays out the plan of the ascending name list, whatever order the names were enumerated in |
| `ModulePlans.PlansAreDeterministic` | src/game/aiBlueprints.lua:1028-1045 | every peer derives the same plan |
| `ModulePlans.PlansFitMachine` | src/game/aiBlueprints.lua:1028-1045 | an accepted request fills stacks 0 to total-1, each once, all below the inventory size, with each module getting its count |
| `EventRing.OverwrittenExactly` | src/game/aiEvents.lua:67-95 | an event is gone exactly when 512 later events have been recorded |
| `EventRing.ExpiredExactly` | src/game/aiEvents.lua:97-106 | a cursor is answered CURSOR_EXPIRED exactly when the next unread event has really been overwritten |
| `EventRing.HeldExactly` | src/game/aiEvents.lua:67-95 | the ring holds exactly the newest 512 events |
| `EventRing.Ring.Record` | src/game/aiEvents.lua:67-95 | recording appends one numbered event to the unbounded log the ring stands for |
| `EventRing.Ring.List` | src/game/aiEvents.lua:155-191 | listing answers what a page read of the unbounded log answers, or the error of the first failing check |
| `EventRing.ListAnswersWhen` | src/game/aiEvents.lua:97-165 | which requests are answered with a page, and with which error the others |
| `EventRing.ListAnswersExactly` | src/game/aiEvents.lua:155-191 | a page holds exactly the events behind its cursor, or from the oldest one held when there is none, up to the one it returns, on the reader's surfaces and of the kinds asked for, in ascending order, and says what the ring holds |
| `EventRing.PageSizeExactly` | src/game/aiEvents.lua:166-184 | a page is as large as asked for, 100 by default, within the reader's own bound, 100 by default, and 200 |
| `EventRing.PageIsFullOrLast` | src/game/aiEvents.lua:168-190 | a page never exceeds its limit and stops early only when it is full |
| `EventRing.NoSilentGap` | src/game/aiEvents.lua:155-191 | however recording interleaves with paging, and whatever each poll may see and asks for, the answered polls cover everything between a client's first and last cursor without gap or overlap, and it received of each stretch exactly what that poll's reader may see; or it was told of the expiry |
| `EventRing.FirstCallMissesNothing` | src/game/aiEvents.lua:97-191 | a client that starts without a cursor: its first poll starts with the oldest event the ring then holds, and from there on nothing is missed |
| `EventRing.ReceivedExactly` | src/game/aiEvents.lua:155-191 | an event between the two cursors is received if and only if the reader of the poll that covered it may see it |
| `EventRing.EveryEventCovered` | src/game/aiEvents.lua:155-191 | every event between the two cursors is covered by some poll |
| `EventRing.GatheredAscends` | src/game/aiEvents.lua:155-191 | everything received comes in ascending order, once each |
| `EventRing.OneReaderGathers` | src/game/aiEvents.lua:155-191 | a client that never changes what it asks for has received exactly the events it may see between its two cursors |
| `EventRing.PagingTerminates` | src/game/aiEvents.lua:155-191 | with recording paused, paging reaches the end and delivers everything owed |
| `EventRing.Ring.HasNewEvents` | src/game/aiEvents.lua:199-206 | a waiting reader is woken exactly when something newer exists, or when its cursor cannot be read |
| `Transport.StepKeepsConsistent` | mcp/src/transport/correlated-transport.ts:51-177 | at every step the pending map is exactly the unsettled requests, every armed timer has a pending entry, every abort listener belongs to a pending or a timed out request, and nothing is pending after close |
| `Transport.RunKeepsConsistent` | mcp/src/transport/correlated-transport.ts:51-177 | the same for every interleaving with distinct identifiers |
| `Transport.SettlesOnce` | mcp/src/transport/correlated-transport.ts:51-177 | a promise settles at most once and a call ends at most once |
| `Transport.AfterClose` | mcp/src/transport/correlated-transport.ts:129-143 | after close no event leaves anything pending, arms a timer or settles a promise |
| `Transport.StartOutcome` | mcp/src/transport/correlated-transport.ts:51-107 | a request is taken exactly by an open transport, within the datagram bound, with a positive timeout and no fired signal; otherwise it ends with the first reason and leaves no trace |
| `Transport.DatagramOutcome` | mcp/src/transport/correlated-transport.ts:138-177 | oversized, unreadable, unmatched and late datagrams are dropped without a trace; a matched one touches its request only |
| `Transport.RequestMeetsItsFate` | mcp/src/transport/correlated-transport.ts:86-126 | an accepted request ends with its send failure if its send fails, otherwise with the first of its own reply, timer, signal or the close |
| `Transport.ListensExactly` | mcp/src/transport/correlated-transport.ts:51-125 | the abort listener of an accepted request is attached exactly while the request is pending or after it timed out, until its signal fires |
| `Transport.TimeoutLeavesListener` | mcp/src/transport/correlated-transport.ts:86-107 | a request that times out leaves its listener behind, even after the transport is closed |
| `Transport.ResponsesAreCorrelated` | mcp/src/transport/correlated-transport.ts:145-177 | a response only ever comes from a reply carrying the request's own identifier |
| `Transport.CorrelatedTransport.BeginRequest` | mcp/src/transport/correlated-transport.ts:51-125 | a request is rejected untouched in the order of the checks, or armed and pending; it is sent exactly when it is taken |
| `Transport.CorrelatedTransport.FinishSend` | mcp/src/transport/correlated-transport.ts:115-127 | a failed send ends the call and clears what it left pending; a successful one waits for the promise |
| `Transport.CorrelatedTransport.HandleDatagram` | mcp/src/transport/correlated-transport.ts:145-177 | oversized, undecodable and unmatched datagrams change nothing; a matched one settles its request only |
| `Transport.CorrelatedTransport.OnTimer` | mcp/src/transport/correlated-transport.ts:87-90 | a timeout settles its own request only |
| `Transport.CorrelatedTransport.OnAbort` | mcp/src/transport/correlated-transport.ts:92-104 | an abort settles its own request only, and only while it is pending |
| `Transport.CorrelatedTransport.Close` | mcp/src/transport/correlated-transport.ts:129-143 | close settles every pending request, once, and is idempotent |
| `PairGuard.ExpiresFromFront` | mcp/src/http/pair-guard.ts:99-103 | on sorted stamps the window clamps the future to now, drops only from the front, and stays sorted |
| `PairGuard.FailuresAreLive` | mcp/src/http/pair-guard.ts:44-64 | the stored failures are exactly those whose window has not lapsed, each at the lowest reading since it was recorded |
| `PairGuard.AdmitExactly` | mcp/src/http/pair-guard.ts:44-64 | shed exactly while the cap of failures is reached in the window, throttled exactly while the address has used up its attempts, let through otherwise |
| `PairGuard.AllowedIsBooked` | mcp/src/http/pair-guard.ts:44-64 | while the table has room, an attempt let through is booked once, at the reading of the clock, and no other address is touched |
| `PairGuard.RefreshedStamps` | mcp/src/http/pair-guard.ts:77-90 | refreshing keeps of every address its younger stamps and forgets it when there are none |
| `PairGuard.OutcomesAreBooked` | mcp/src/http/pair-guard.ts:66-75 | a success frees its address and nothing else; a failure is booked once, behind the younger ones, and touches no address |
| `PairGuard.WindowStaysBounded` | mcp/src/http/pair-guard.ts:44-64 | with at most `width` attempts overlapping, the live failures and the attempts still in flight together never exceed `maxFailures - 1 + width` |
| `PairGuard.FailuresSpanAWindow` | mcp/src/http/pair-guard.ts:44-64 | under any clock, among any `maxFailures + width` failures some call from the first to the last reads a clock a full window above the lowest reading since the first; sequential use is width 1 |
| `PairGuard.SixFailuresSpanAMinute` | mcp/src/http/pair-guard.ts:35-64 | with the shipped limits, among any six failures of sequential attempts some call reads a clock at least a minute above the lowest reading since the first |
| `PairGuard.AtMostMaxFailuresPerWindow` | mcp/src/http/pair-guard.ts:44-64 | under a clock that never steps back, sequential attempts forward at most the configured number of failures in any window |
| `Throttling.OverlapBoundIsTight` | mcp/src/http/pair-guard.ts:44-64 | for every cap and width some run with that overlap records `maxFailures - 1 + width` failures at one instant, so the bound cannot be lowered |
| `Throttling.OverlapExceedsCap` | mcp/src/http/pair-guard.ts:44-64 | whatever the cap, as soon as two attempts may overlap more failures than the cap can be recorded at one instant |
| `Throttling.AttemptsSpanAWindow` | mcp/src/http/pair-guard.ts:49-56 | under any clock, while the guard remembers an address no more than `maxAttempts` of its attempts get through before some admission reads a clock a full window above the lowest reading since the first |
| `Throttling.AtMostMaxAttemptsPerWindow` | mcp/src/http/pair-guard.ts:49-56 | under a clock that never steps back, one address gets at most `maxAttempts` attempts through in any window between a success or an eviction |
| `Throttling.BucketHoldsAttempts` | mcp/src/http/pair-guard.ts:49-56 | until its first stamp lapses, a remembered address's bucket holds every attempt let through since, under evictions of others and clock jumps |
| `PairGuard.CallKeepsTableBounded` | mcp/src/http/pair-guard.ts:71-90 | every call keeps one entry per address and at most the configured number of entries |
| `PairGuard.Guard.Admit` | mcp/src/http/pair-guard.ts:44-58 | the verdict and the new tables are those of one admission, expiry and eviction included |
| `PairGuard.Guard.RecordFailure` | mcp/src/http/pair-guard.ts:61-64 | a failure is booked at the end of the live window |
| `PairGuard.Guard.EvictStale` | mcp/src/http/pair-guard.ts:71-90 | refresh in place, then drop oldest-inserted entries until the table fits |
| `OrderedMaps.SetLookup` | mcp/src/http/pair-guard.ts:49-56 | setting a key of the insertion-ordered map changes that key only |
| `OrderedMaps.DeleteFacts` | mcp/src/http/pair-guard.ts:67-90 | deleting a key removes that key only and keeps keys unique |
| `Evolution.CurveRoundTrips` | src/game/evolution_math.lua:3-12 | the two conversions undo each other on their ranges |
| `Evolution.CurveIsMonotone` | src/game/evolution_math.lua:3-6 | the factor grows with the raw value |
| `Evolution.CurveEquations` | src/game/evolution_math.lua:3-12 | the equations of the two conversions and where the curve ends |
| `Evolution.TimeIsIntervalSum` | src/game/evolution_math.lua:18-48 | from any stored ledger, over any run of syncs, the raw time grows by what its open interval was worth and the elapsed minutes of the intervals that started active and enabled, each at the coefficient in force at its start |
| `Evolution.ExtraSyncInRun` | src/game/evolution_math.lua:18-48 | an extra sync anywhere in a run, under the parameters already in force, changes no total, so disabled time is never charged later |
| `Evolution.PollutionIsSaturatedSum` | src/game/evolution_math.lua:54-84 | from any stored ledger, through any run of samples, resets, policy changes and the migration, the raw pollution is the starting value, what the first step charges and every later positive delta at the previous sample's rate, saturated at the maximum |
| `Evolution.UnitsAreSaturatedSum` | src/game/evolution_math.lua:54-84 | the consumed units are every rise of the counter, whatever the policy, saturated at the maximum; only the migration starts over from zero |
| `Evolution.CreditedNeverDecreases` | src/game/evolution_math.lua:54-84 | from any stored ledger with a non-negative rate, credited evolution never goes backwards |
| `Evolution.Ledger.SyncConnectedTime` | src/game/evolution_math.lua:18-48 | one time sync in place |
| `Evolution.Ledger.SyncPollution` | src/game/evolution_math.lua:54-84 | one pollution sample in place |
| `Evolution.MigratePollution` | src/core/state.lua:54-72 | before schema 5 exactly the ledgers of the teams' surfaces are rebased, each once; from schema 5 on nothing changes |
| `Credentials.CallKeepsSound` | mcp/src/http/credentials.ts:104-170 | every call, a restart included, keeps one credential an identifier and one a player, and a file that decodes to the table |
| `Credentials.RunKeepsSound` | mcp/src/http/credentials.ts:104-205 | the same through every run of calls and restarts |
| `Credentials.DecodeInvertsEncode` | mcp/src/http/credentials.ts:178-245 | the entries written for a table load back as exactly that table, in order |
| `Credentials.DecodedMembers` | mcp/src/http/credentials.ts:199-204 | loading keeps the last entry of each identifier, and nothing else |
| `Credentials.LoadIsSoundExactly` | mcp/src/http/credentials.ts:178-207 | loading a file gives a sound store if and only if, among its unexpired last entries of each identifier, every grant names its own identifier and no two belong to one player |
| `Credentials.SharedPlayerLoadsUnsound` | mcp/src/http/credentials.ts:178-207 | a file that fails: two unexpired entries with different identifiers and one player |
| `Credentials.CleanFileLoadsSound` | mcp/src/http/credentials.ts:178-207 | in particular a file whose entries have distinct players and whose grants name their own identifiers loads soundly |
| `Credentials.StoresAreSound` | mcp/src/http/credentials.ts:178-207 | a store opened on a missing, unreadable, blank or malformed file, or on one whose live entries are so, is sound for ever after |
| `Credentials.RestartIsSweep` | mcp/src/http/credentials.ts:178-205 | a rebuilt store is the old one less its expired grants, in order |
| `Credentials.VerifiesExactly` | mcp/src/http/credentials.ts:122-138 | verification answers with a grant exactly when the store holds it under that identifier and secret, neither revoked nor expired |
| `Credentials.CallOutcome` | mcp/src/http/credentials.ts:104-205 | after any call the table holds what it held less what that call removes, and what a mint has minted: no other player's and no other token's credential is touched |
| `Credentials.MintedVerifiesExactly` | mcp/src/http/credentials.ts:104-138 | a freshly minted token verifies, and no other token with its identifier does |
| `Credentials.DeadTokensStayDead` | mcp/src/http/credentials.ts:104-205 | a token whose identifier has left the store never verifies again |
| `Credentials.KilledTokensNeverVerify` | mcp/src/http/credentials.ts:104-158 | a replaced or revoked token never verifies again, with any secret, through any later calls and restarts |
| `Credentials.CredentialStore.constructor` | mcp/src/http/credentials.ts:89-93 | a store opened on a file is what a restart on that file leaves |
| `Credentials.CredentialStore.LoadEntries` | mcp/src/http/credentials.ts:199-204 | loading keeps the last entry of each identifier, in first-seen order |
| `Credentials.CredentialStore.RemoveMatching` | mcp/src/http/credentials.ts:146-170 | removing while iterating removes exactly the matching entries and writes the file only if something went |
| `Credentials.CredentialStore.MintCredential` | mcp/src/http/credentials.ts:104-119 | minting sweeps, replaces the player's credential and writes the file |
| `Credentials.CredentialStore.VerifyToken` | mcp/src/http/credentials.ts:122-138 | verification answers as specified, and forgets an expired grant it meets |
| `Credentials.CredentialStore.RevokeToken` | mcp/src/http/credentials.ts:140-144 | revoking removes that identifier, writing the file only if it was there |
| `Credentials.CredentialStore.RevokeByPlayer` | mcp/src/http/credentials.ts:146-158 | revoking a player removes that player's credential on that save only |
| `OutputPorts.BuildFilters` | src/game/aiControl.lua:124-136 | the filters are built in order exactly when every signal is valid and no two share a key; otherwise the error is that of the first signal that spoils the list |
| `OutputPorts.OutputControl.WritePort` | src/game/aiControl.lua:103-159 | a write is carried out whole exactly when every check passes; a refusal changes nothing |
| `OutputPorts.AcceptedExactly` | src/game/aiControl.lua:86-141 | which writes are carried out, written out: at most 32 known, separable signals, a time to live of 5 to 3600 seconds, 300 ticks since the last change, a place among 256 |
| `OutputPorts.OutputControl.Tick` | src/game/aiControl.lua:161-185 | a sweep clears and forgets exactly the expired and the invalid ports, in any order of the index |
| `OutputPorts.StepKeepsReady` | src/game/aiControl.lua:103-192 | at every step the index is within 256 ports, no record has met a sweep past its deadline, and a written port shows signals exactly while it is indexed |
| `OutputPorts.AcceptedWritesAreSpaced` | src/game/aiControl.lua:117-119 | from an empty index, in every run, two accepted writes to one port are at least 300 ticks apart and the index never exceeds its cap |
| `OutputPorts.ForgettingIsHarmless` | src/game/aiControl.lua:117-185 | the index refuses a write to a valid port exactly when a limiter that never forgot a write would |
| `OutputPorts.OutputLastsExactly` | src/game/aiControl.lua:161-185 | an untouched output keeps its signals until the first sweep at or after its clear tick and is empty, inactive and unindexed from then on |
| `OutputPorts.WriteLivesItsTtl` | src/game/aiControl.lua:103-185 | an accepted write shows exactly the signals asked for until the first sweep at least its time to live later |
| `OutputPorts.NothingOutlivesItsDeadline` | src/game/aiControl.lua:161-185 | in every run a written port that still shows signals is at most 28 ticks past its deadline |
| `OutputPorts.DeadlineIsMissedBy28` | src/game/aiControl.lua:103-185 | every accepted write one tick after a sweep reaches that bound: its signals still show 28 ticks past the clear tick and are gone one tick later |
| `PngFilters.PaethIsNearest` | scripts/validate.py:181-190 | the predictor picks a neighbour nearest to the estimate, preferring left, then above |
| `PngFilters.UnfilterInvertsFilter` | scripts/validate.py:262-275 | unfiltering inverts filtering for every row, row above and filter type |
| `PngFilters.FilterInvertsUnfilter` | scripts/validate.py:262-275 | every byte string is the filtering of exactly the row it unfilters to |
| `PngFilters.ReconstructionFormulas` | scripts/validate.py:262-275 | each byte is reconstructed as section 9.2 of the PNG specification says |
| `PngFilters.DecodedRows` | scripts/validate.py:255-275 | each row starts with its filter type and is undone against the row above |
| `PngFilters.UnfilterInPlace` | scripts/validate.py:262-275 | the in-place loop reconstructs the row |
| `PngFilters.DecodeInvertsEncode` | scripts/validate.py:255-291 | a whole image with any choice of filter per row decodes to itself |
| `PngStats.TallyDescribes` | scripts/validate.py:277-302 | transparent + visible is width times height, opaque is at most visible, bounds is the least rectangle over all non-zero alpha, corners are the corner alphas |
| `PngStats.CornersInOrder` | scripts/validate.py:277-302 | the corner alphas come in coordinate order, each corner once |
| `PngStats.TallyRow` | scripts/validate.py:277-290 | the pixel loop of a row adds that row to the tally |
| `PngStats.TallyImage` | scripts/validate.py:255-291 | the row loop tallies the decoded image, and fails exactly on an unknown filter type |
| `PngStats.AlphaStats` | scripts/validate.py:234-302 | the statistics returned describe the decoded image |
| `PngFiles.PackUnpack` | scripts/validate.py:204 | four bytes are the big-endian form of the length they unpack to |
| `PngFiles.UnpackIsBigEndian` | scripts/validate.py:204 | the number four bytes stand for, the most significant first |
| `PngFiles.FieldsOf` | scripts/validate.py:203-209 | length, type, data and check bytes lie one behind the other |
| `PngFiles.WalkReadsChunks` | scripts/validate.py:200-218 | the walk reads back any chunk list, whatever follows its end chunk |
| `PngFiles.TypesExactly` | scripts/validate.py:155-173 | chunk types are reported exactly for bytes that start with whole chunks closed by their first end chunk |
| `PngFiles.ChunkTypes` | scripts/validate.py:155-173 | the streaming loop reports those types |
| `PngFiles.RgbaAlphaStats` | scripts/validate.py:193-304 | statistics are returned exactly for files holding an 8-bit RGBA image, and describe it |
| `PngFiles.FileRoundTrip` | scripts/validate.py:193-304 | any image, filtered in any way and split over any chunks, is read back row for row |
| `WaterBorder.CeilingRoot` | src/utils/compute.lua:93 | the outer radius is the least whole number whose square reaches the outer radius squared |
| `WaterBorder.CeilingRootIsUnique` | src/utils/compute.lua:93 | no other whole number is that ceiling |
| `WaterBorder.ClampIsFilter` | tests/unit/test_compute_static.py:48-54 | clamping an axis keeps exactly its coordinates within the bounds, in order |
| `WaterBorder.ClampBoundsWork` | src/utils/compute.lua:90-107 | a clamped axis has at most two outer radii and one coordinates |
| `WaterBorder.ClampedScanIsFullScan` | tests/unit/test_compute_static.py:18-54 | the clamped area selects exactly the tiles of the full area, in the same order, for every real centre, area, radius and modifier |
| `WaterBorder.FullScanExactly` | src/utils/compute.lua:108-122 | what is found: exactly the tiles at unit steps from the corner of the area whose squared distance, rounded down, lies strictly between the circles |
| `WaterBorder.EmptyRing` | src/utils/compute.lua:85-89 | a ring whose outer radius squared is not positive has no tiles, so the early return is right |
| `WaterBorder.ScanArea` | src/utils/compute.lua:108-122 | the two unit-step loops give the scan of the area |
| `WaterBorder.FindWater` | src/utils/compute.lua:83-123 | the runtime search of the clamped area finds what a scan of the whole area would |

## Left out

- Engine calls (inventories, stacks, prototypes, GUI elements, `game.*`, `helpers.*`): only their success, labels and ticks appear, as parameters.
- Blueprint validation other than module requests: a layout that passes is `Validated`, which fixes a readable layout, a legal name, the `#` of its entities and an encodable canonical form.
- Emitters from layouts to engine tables, list, load and book views of the library: they read and do not change the inbox.
- A table of the current schema and field types whose contents were edited by hand: `player_inbox` uses it as it is, the model holds only well-formed current tables and outdated ones.
- A stored table that lists an identifier its player has yet to be given, or a book among the blueprints: only a hand edit can make one; the former is excluded from runs by `Past`, the latter from window sessions by `Prefixed`.
- A window opened on an outdated table before any call has rebuilt it.
- Lua tables are a string-keyed part, the run `ipairs` visits and the number `#` answers; other keys and metatables are not modelled, and strings are sequences of bytes.
- Records and books are values inside the inbox maps, so two tables sharing one record are not modelled.
- `helpers.table_to_json` is a length function of the canonical layout; the counter stays below the size at which Lua prints numbers with an exponent.
- A window that will not resize: an index past its last slot is taken to give no stack, so that delivery fails.
- Deliveries to cursors and clipboards are the error code of a failed one; messages, logs and the texts of errors are left out, error codes are kept.
- The order in which foreign stacks return to the player is kept, where they land (inventory or ground) is not.
- Event details and the checks that some reader could exist before an event is recorded: an event is its number, kind, tick and surface.
- Transport: JSON and schema validation are the classes of `Datagram`; peer failures in `close` and Node's handling of unhandled rejections are left out.
- Hashing is a parameter, injective where a theorem needs it; token identifiers are fresh; constant-time comparison, file modes and failing writes are left out, and the file is its decoded entries.
- Routing, pairing codes, schemas, configuration and the HTTP bridge; `aiGateway.lua` matters only as the caller that sweeps once a tick before it handles requests.
- Floating-point rounding: evolution, curve and coordinates are reals.
- Inflation of PNG data is the parameter `inflate`; reading the file is its bytes.
- Output ports: reading ports and annotations; a section edited or deleted by a player; ports pasted with an active section are covered only once they have been written.
- Credentials.DecodeInvertsEncode: does not model the JSON text, its schema or `materializeAccessGrant`, because parsing and data declarations are outside the model; a file is its decoded entries.
- PairGuard.AtMostMaxFailuresPerWindow: states the sequential case, because overlapping attempts do exceed the cap.
