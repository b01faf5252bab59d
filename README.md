# CMIS cloud drive synchronisation, modelled in Dafny

eXo Cloud Drive mirrors a remote CMIS repository into a local JCR tree.
The CMIS connector's `JCRLocalCMISDrive` holds the engine that keeps the two
in step. It has four parts:

- **Connect** fetches the whole remote tree once.
- **Sync** chooses between the CMIS change log and a full traversal, and
  commits the change token it reached.
- **FileAPI.restore** re-creates one object's local mirrors.
- **updateItem** is the shared node-level step. It opens or creates the local
  node, tests it for drift against the remote object, and overwrites the
  mirrored fields only when it drifted.

`UserToken` is the OAuth token holder of the core services: three token
fields and an insertion-ordered set of refresh listeners.

The model keeps the program's own shapes.

- **Local store.** The JCR store is a map from node handles to node records:
  path, parent, kind, remote id, title, change token, modification date,
  version-series and checked-out ids, type, and the removed and ignored flags.
  A removed node stays in the map with its flag set, so later access to it
  can fail as it does in JCR.
- **Sessions.** `persisted` is the last saved state of the store. A node is
  new when it is not in it.
- **The node index.** This is the `nodes` map of the sync algorithms. It goes
  through a list indirection (`Index.keys: Id -> ListRef`,
  `Index.lists: ListRef -> seq<NodeRef>`), so that the aliases `readNodes`
  registers for version-series and checked-out ids share one list, as the
  Java lists do.
- **The drive** is a class (`LocalDrive.Drive`). Its fields are what the
  engine updates in place: store, index, saved state, the reported
  changed/removed files, the token checkpoints each saved chunk leaves, the
  pending local changes and the change-log iterator's last token.
- **The remote side** is a snapshot, `Remote.Repo`. It holds listings, objects
  by id, the latest token and the change-log capability. The change log is a
  sequence of `ChangeEvent`s.
- **Cancellation.** `Thread.interrupted` is a poll counter against the
  `interruptAt` input of the drive.
- **UserToken** is a class over the three token fields and a listener
  sequence without duplicates. Each listener callback is an entry appended to
  a notification log.

The change-log loop is specified by pure functions (`ChangeLog.Decide`,
`Step`, `Plan`, `SavedTokens`). The imperative loop (`ChangeSync`) is proved
to follow them. `deleteFile` and the final walk of `updateFile` are
specified the same way, by folds over the list they walk (`Changes.SweepList`,
`FileUpdate.PurgeList`), with lemmas stating what the folds decide.

Three behaviours of the code are worth stating because they are easy to misread:

- The "version" suppression of the change-log loop (the "same name object on
  the same parents" check at `JCRLocalCMISDrive.java:281`) requires the current
  parent set to contain all the previous parents (`containsAll`). An overlap is
  not enough. `ChangeLog.OverlapIsNotEnough` exhibits the difference.
- After `deleteFile` empties a file's list, `existing.remove(fileId)` removes
  nothing. The key stays mapped to an empty list (`Changes.DeleteFile`). It
  disappears only at the next `readNodes` (`NodeIndex.EmptiedKeyDropped`).
- The descendant test of `deleteFile` and of the traversal is the textual
  `startsWith`. Removing `/d/a` also drops index entries of a sibling `/d/ab`
  (`NodeIndex.PruneListDropsTextualSibling`).

## Model

| member | source | states |
|---|---|---|
| MimeTypes.FindMimetype | connectors/cmis/services/src/main/java/org/exoplatform/clouddrive/cmis/JCRLocalCMISDrive.java:1971-1985 | An explicit type that does not start with the default type is returned unchanged. Otherwise the first of these wins: the name-guessed type if present and not default-prefixed, the alternative type, the default. The result is always a string. A default-prefixed result is only ever the default itself or the alternative type. |
| Reconcile.IsChanged | connectors/cmis/services/src/main/java/org/exoplatform/clouddrive/cmis/JCRLocalCMISDrive.java:1841-1859 | A new node is changed. With both change tokens present, changed exactly when they differ. With either absent, changed exactly when the modification dates are not equal, so a date that moved backwards counts as a change. |
| Reconcile.DocumentType | connectors/cmis/services/src/main/java/org/exoplatform/clouddrive/cmis/JCRLocalCMISDrive.java:1809-1818 | A document keeps its content-stream type, unless that type is absent or exactly the default; then it takes the type guessed from its name. |
| Reconcile.StoredType | connectors/cmis/services/src/main/java/org/exoplatform/clouddrive/cmis/JCRLocalCMISDrive.java:1737-1757 | A folder stores its object type id. A document stores its explicit non-default type, or else the usable guess by name. Through the `initFile` override, a default-prefixed stored type of a non-folder is the default itself. |
| Reconcile.Refresh | connectors/cmis/services/src/main/java/org/exoplatform/clouddrive/cmis/JCRLocalCMISDrive.java:1863-1898 | On a changed node, every mirrored field (id, title, token, modified date, series and checked-out ids, type) takes the remote value. Path, parent, kind and flags are kept. |
| Reconcile.RefreshSettlesDrift | connectors/cmis/services/src/main/java/org/exoplatform/clouddrive/cmis/JCRLocalCMISDrive.java:1841-1898 | After a refresh, the drift test against the same remote object reports the node unchanged, so a second update writes nothing. |
| Remote.GetObject | connectors/cmis/services/src/main/java/org/exoplatform/clouddrive/cmis/JCRLocalCMISDrive.java:199-208 | The object is found exactly when the repository holds the id. Otherwise the result is NotFound. |
| Remote.Distinct | connectors/cmis/services/src/main/java/org/exoplatform/clouddrive/cmis/JCRLocalCMISDrive.java:260-262 | The ids added to the `LinkedHashSet`: each id of the input once, no other, in the order of its first occurrence. |
| Remote.ParentIds | connectors/cmis/services/src/main/java/org/exoplatform/clouddrive/cmis/JCRLocalCMISDrive.java:233-264 | A folder contributes its single folder parent; any other fileable item contributes all its filing parents, each once, in the order of their first occurrence (a `LinkedHashSet`). The set is empty exactly when the item has no parent. |
| Remote.FirstNamed | connectors/cmis/services/src/main/java/org/exoplatform/clouddrive/cmis/JCRLocalCMISDrive.java:914-922 | The scan for the conflicting child stops at the first child with the title. No earlier child has it, and none at all when nothing is found. |
| Remote.AdoptOnConflict | connectors/cmis/services/src/main/java/org/exoplatform/clouddrive/cmis/JCRLocalCMISDrive.java:912-929 | On a create conflict, the object is adopted exactly when the first same-named child has the kind being created (a document here; a folder in `createFolder` at lines 982-998). Otherwise the conflict is re-thrown. |
| LocalDrive.Members | connectors/cmis/services/src/main/java/org/exoplatform/clouddrive/cmis/JCRLocalCMISDrive.java:1364 | `findNodes(id)` yields exactly the drive's live cloud nodes that carry the id. |
| LocalDrive.Grouped | connectors/cmis/services/src/main/java/org/exoplatform/clouddrive/cmis/JCRLocalCMISDrive.java:2022 | The base reading of the drive groups its cloud nodes by id: one entry per id, each entry lists exactly the id's nodes, and every cloud node's id has an entry. |
| LocalDrive.PutEntry | connectors/cmis/services/src/main/java/org/exoplatform/clouddrive/cmis/JCRLocalCMISDrive.java:2030-2046 | The inner loop of `readNodes` puts exactly the keys `PutNodes` prescribes for one entry: each file's series and checked-out ids, then the entry key, all to the entry's shared list. |
| LocalDrive.RebuildKeys | connectors/cmis/services/src/main/java/org/exoplatform/clouddrive/cmis/JCRLocalCMISDrive.java:2028-2051 | The outer loop of `readNodes` yields the map `Rebuild` defines over the entries in their order. |
| LocalDrive.Drive.Poll | connectors/cmis/services/src/main/java/org/exoplatform/clouddrive/cmis/JCRLocalCMISDrive.java:188 | Each interruption check is counted. It reports an interruption exactly once the count has reached the cancellation point. |
| LocalDrive.Drive.SaveChunk | connectors/cmis/services/src/main/java/org/exoplatform/clouddrive/cmis/JCRLocalCMISDrive.java:756-761 | While a change-log run is attached, the drive token first becomes the iterator's last token. A null token is a null dereference, and a removed drive node fails. Then the session is saved, and the saved token is recorded as a checkpoint. A failure saves nothing. |
| LocalDrive.Drive.SetChangeToken | connectors/cmis/services/src/main/java/org/exoplatform/clouddrive/cmis/JCRLocalCMISDrive.java:1768-1770 | The drive node's change token becomes the given one. This fails, changing nothing, exactly when the drive node was removed. |
| LocalDrive.Drive.Commit | connectors/cmis/services/src/main/java/org/exoplatform/clouddrive/cmis/JCRLocalCMISDrive.java:746-750 | The close of a command: the drive node takes the token and the drive the start time, or nothing changes when the drive node is gone. |
| LocalDrive.Drive.Rollback | connectors/cmis/services/src/main/java/org/exoplatform/clouddrive/cmis/JCRLocalCMISDrive.java:725-730 | Every saved node returns to its saved state. Every node created since the last save is gone. |
| LocalDrive.Drive.RemoveNode | connectors/cmis/services/src/main/java/org/exoplatform/clouddrive/cmis/JCRLocalCMISDrive.java:342 | `en.remove()` removes the node with its subtree. It fails, changing nothing, exactly when the node was already removed. |
| LocalDrive.Drive.MoveFile | connectors/cmis/services/src/main/java/org/exoplatform/clouddrive/cmis/JCRLocalCMISDrive.java:409-413 | The renamed mirror goes under the parent with the new title, and its live descendants follow. It fails unless both nodes are live. |
| LocalStore.CopyNode | connectors/cmis/services/src/main/java/org/exoplatform/clouddrive/cmis/JCRLocalCMISDrive.java:397-401 | The workspace copy duplicates the node and its whole live subtree under fresh handles. The copy goes under the new parent at its title. Each node below it is copied under the copy of its parent, with its path rebased onto the copy's path. The original nodes keep their records, and the store gains no other node. |
| LocalDrive.Drive.CopyFile | connectors/cmis/services/src/main/java/org/exoplatform/clouddrive/cmis/JCRLocalCMISDrive.java:397-401 | The folder mirror and its live subtree are copied, as `CopyNode` states, under the new parent. Fresh handles are taken from the drive's counter, and the copied mirror's handle is returned. It fails, changing nothing, unless both nodes are live. |
| LocalDrive.Drive.Created | connectors/cmis/services/src/main/java/org/exoplatform/clouddrive/cmis/JCRLocalCMISDrive.java:1828-1834 | `openFolder`/`openFile` make a live child at the item's name under the parent, of folder or file kind as the item is. |
| LocalDrive.Drive.UpdateItem | connectors/cmis/services/src/main/java/org/exoplatform/clouddrive/cmis/JCRLocalCMISDrive.java:1797-1917 | The given node, or else the existing child at the item's name, or else a fresh one, is tested for drift with `IsChanged`. Only a drifted node is overwritten, with `Refresh`; an undrifted one is left as it was. A folder is always reported changed. A removed node or parent fails with nothing changed. A title equal to the remote name is never changed. |
| LocalDrive.Drive.ReadLocalNodes | connectors/cmis/services/src/main/java/org/exoplatform/clouddrive/cmis/JCRLocalCMISDrive.java:2020-2052 | The index is rebuilt from the store: every cloud node under its id, and each file's list also under its series and checked-out ids. |
| NodeIndex.PruneList | connectors/cmis/services/src/main/java/org/exoplatform/clouddrive/cmis/JCRLocalCMISDrive.java:331-336 | A node stays on the list exactly when its path does not start with the removed path. |
| NodeIndex.PruneListIdempotent | connectors/cmis/services/src/main/java/org/exoplatform/clouddrive/cmis/JCRLocalCMISDrive.java:328-341 | Pruning a list again with the same path changes nothing. A list shared by several keys and met once per key ends the same as if met once. |
| NodeIndex.PruneListEmpty | connectors/cmis/services/src/main/java/org/exoplatform/clouddrive/cmis/JCRLocalCMISDrive.java:337-339 | A pruned list is empty, and its key dropped, exactly when every node on it lay below the removed path. |
| NodeIndex.PartialPrune | connectors/cmis/services/src/main/java/org/exoplatform/clouddrive/cmis/JCRLocalCMISDrive.java:328-341 | Part way through the cleaning loop, the index still refers only to nodes of the store, and lists only ever lose nodes. |
| NodeIndex.PartialPruneStep | connectors/cmis/services/src/main/java/org/exoplatform/clouddrive/cmis/JCRLocalCMISDrive.java:328-341 | Visiting a key leaves the file's own list alone. Any other key's list is pruned (again), and the key goes exactly when the list is then empty. |
| NodeIndex.PruneIndex | connectors/cmis/services/src/main/java/org/exoplatform/clouddrive/cmis/JCRLocalCMISDrive.java:328-341 | After one removal, every list other than the file's own has lost the nodes below the path. A key survives exactly when its list is non-empty. The file's list and its keys are untouched, and no key is added or re-targeted. |
| NodeIndex.PruneRounds | connectors/cmis/services/src/main/java/org/exoplatform/clouddrive/cmis/JCRLocalCMISDrive.java:319-349 | After the cleanings of several removals, no key other than the file's own is left on an empty list. Lists only lose nodes, and the file's list is untouched. |
| NodeIndex.PruneRoundsDropsDescendants | connectors/cmis/services/src/main/java/org/exoplatform/clouddrive/cmis/JCRLocalCMISDrive.java:328-341 | No list that a key still refers to (other than the file's own) holds a node whose path starts with a removed path. |
| NodeIndex.PruneListDropsTextualSibling | connectors/cmis/services/src/main/java/org/exoplatform/clouddrive/cmis/JCRLocalCMISDrive.java:333 | The test is textual: removing `/d/a` also drops the sibling `/d/ab`, which is not below it. |
| NodeIndex.FirstKnown | connectors/cmis/services/src/main/java/org/exoplatform/clouddrive/cmis/JCRLocalCMISDrive.java:2089-2094 | The result is the list of the first version the index knows, with no earlier version known. There is none exactly when no version is known. |
| NodeIndex.FindDocumentNode | connectors/cmis/services/src/main/java/org/exoplatform/clouddrive/cmis/JCRLocalCMISDrive.java:2067-2106 | The lookup order is: the id's list; then, for a document only, its version series' list; then the first known version's list (none when the versions cannot be read). Any list found belongs to one of these keys. |
| NodeIndex.EntryKeys | connectors/cmis/services/src/main/java/org/exoplatform/clouddrive/cmis/JCRLocalCMISDrive.java:2029-2047 | An entry with nodes always puts its own key. An entry without nodes puts no key at all. |
| NodeIndex.EntryKeysMembers | connectors/cmis/services/src/main/java/org/exoplatform/clouddrive/cmis/JCRLocalCMISDrive.java:2029-2047 | A key is put for an entry exactly when it is the entry's own key (with nodes) or an alias of one of its files. |
| NodeIndex.PutNodesPutsEntryKeys | connectors/cmis/services/src/main/java/org/exoplatform/clouddrive/cmis/JCRLocalCMISDrive.java:2030-2046 | One entry's puts map exactly its keys to its list and leave every other key alone. |
| NodeIndex.RebuildLastClaimWins | connectors/cmis/services/src/main/java/org/exoplatform/clouddrive/cmis/JCRLocalCMISDrive.java:2028-2051 | After `readNodes`, a key is present exactly when some entry puts it. It refers to the list of the last entry that does. |
| NodeIndex.EmptiedKeyDropped | connectors/cmis/services/src/main/java/org/exoplatform/clouddrive/cmis/JCRLocalCMISDrive.java:2029-2047 | A key left on an empty list, and claimed by no file as an alias, is gone after the next `readNodes`. |
| NodeIndex.OwnKeyKept | connectors/cmis/services/src/main/java/org/exoplatform/clouddrive/cmis/JCRLocalCMISDrive.java:2045 | An entry key with nodes, claimed by no later entry, keeps its own list. |
| ChangeLog.Fetch | connectors/cmis/services/src/main/java/org/exoplatform/clouddrive/cmis/JCRLocalCMISDrive.java:197-209 | An object is fetched exactly for a syncable, non-DELETED event whose object exists, and it is that object. |
| ChangeLog.Decide | connectors/cmis/services/src/main/java/org/exoplatform/clouddrive/cmis/JCRLocalCMISDrive.java:197-291 | The branch taken for one event: <br>• an unsyncable event is ignored; <br>• one with nothing fetched removes the file, echoing a local removal exactly when the id was removed locally; <br>• relationships and parentless items are skipped; <br>• a local update is echoed; <br>• a same-named item created by the remembered event, and filed under all its parents, is suppressed; <br>• anything else is applied with its parent ids. |
| ChangeLog.Remember | connectors/cmis/services/src/main/java/org/exoplatform/clouddrive/cmis/JCRLocalCMISDrive.java:278-296 | Skipped events leave the memory of the previous event as it was. A suppression forgets it. An unsupported or removal event becomes the memory with no item and no parents. A processed (applied or echoed) event becomes the memory with its item and that item's collected parent ids, which the next suppression test compares against. |
| ChangeLog.Step | connectors/cmis/services/src/main/java/org/exoplatform/clouddrive/cmis/JCRLocalCMISDrive.java:211-270 | An echoed removal consumes the id from the pending local removals, and an echoed update consumes it from the pending local updates. Nothing else is consumed. |
| ChangeLog.SuppressHasWitness | connectors/cmis/services/src/main/java/org/exoplatform/clouddrive/cmis/JCRLocalCMISDrive.java:278-296 | Every suppressed event has an earlier event that created an item of the same name and was processed, whose parents are all among the suppressed item's parents, with only skipped events in between, unless the starting memory is that witness. |
| ChangeLog.SuppressFollowsCreation | connectors/cmis/services/src/main/java/org/exoplatform/clouddrive/cmis/JCRLocalCMISDrive.java:278-288 | From an empty memory, a suppressed event always follows a CREATED event of the same name whose item's parents are all among the suppressed item's parents. |
| ChangeLog.NoSuppressTwiceInARow | connectors/cmis/services/src/main/java/org/exoplatform/clouddrive/cmis/JCRLocalCMISDrive.java:284-287 | The memory reset after a suppression means the next event is never suppressed. |
| ChangeLog.OverlapIsNotEnough | connectors/cmis/services/src/main/java/org/exoplatform/clouddrive/cmis/JCRLocalCMISDrive.java:280 | The suppression needs containment: an item created under {p, q} does not suppress a same-named update filed only under p. |
| ChangeLog.ThreeCreationsApplySuppressApply | connectors/cmis/services/src/main/java/org/exoplatform/clouddrive/cmis/JCRLocalCMISDrive.java:276-296 | Three identical CREATED events apply, suppress, then apply again, because the suppression forgot the first. |
| ChangeLog.SavedTokens | connectors/cmis/services/src/main/java/org/exoplatform/clouddrive/cmis/JCRLocalCMISDrive.java:292 | Every checkpoint token is the token of an event whose decision saves a chunk. There are no more checkpoints than events. |
| ChangeSync.Perform | connectors/cmis/services/src/main/java/org/exoplatform/clouddrive/cmis/JCRLocalCMISDrive.java:211-290 | Only removals and applications touch the drive or can fail. Every other decision leaves store, index and reports unchanged. A removal is `deleteFile(id, {})` with the effect `Changes.Deleted` states: the outcome, the store, the index and the removed paths follow the walk of the file's list. An application is `updateFile` on the decided parents, with the effect `FileUpdate.Updated` states. |
| ChangeSync.TakeEvent | connectors/cmis/services/src/main/java/org/exoplatform/clouddrive/cmis/JCRLocalCMISDrive.java:192-270 | Taking an event makes its token the iterator's last. The drive's pending local changes follow `Step`. |
| ChangeSync.PerformAndSave | connectors/cmis/services/src/main/java/org/exoplatform/clouddrive/cmis/JCRLocalCMISDrive.java:211-292 | The drive operation has the effect `Performed` states, then the chunk is saved when the decision calls for it. A failed operation is the outcome, and the store stays as the operation left it. After a saved chunk the store is that store with the event's token on the drive node. |
| ChangeSync.ApplyEvent | connectors/cmis/services/src/main/java/org/exoplatform/clouddrive/cmis/JCRLocalCMISDrive.java:189-296 | One iteration follows `Step`. The drive operation has the effect `Performed` states for the event's decision: `deleteFile` for a removal, `updateFile` for an application. Exactly the events whose decision saves a chunk add their token as a checkpoint. Ignored, skipped and suppressed events touch neither the store, nor the index, nor the saved state. |
| ChangeSync.TakeTurn | connectors/cmis/services/src/main/java/org/exoplatform/clouddrive/cmis/JCRLocalCMISDrive.java:189-296 | Applying event `n` after the first `n` makes the loop state and the checkpoints those of `Run` and `Saved` for `n + 1` events. |
| ChangeSync.Advance | connectors/cmis/services/src/main/java/org/exoplatform/clouddrive/cmis/JCRLocalCMISDrive.java:188-297 | An interrupted turn stops with nothing taken. Otherwise the loop state and checkpoints after `n + 1` events are those of `Run` and `Saved`. |
| ChangeSync.ReplayEvents | connectors/cmis/services/src/main/java/org/exoplatform/clouddrive/cmis/JCRLocalCMISDrive.java:185-297 | Events are taken until the log ends or the thread is interrupted. The last token is the `n`-th event's, and a passing run leaves exactly the checkpoints `Saved` prescribes for the first `n` events. |
| ChangeSync.ReadAndReplay | connectors/cmis/services/src/main/java/org/exoplatform/clouddrive/cmis/JCRLocalCMISDrive.java:183-297 | The index is read, then the events replayed, with the same guarantees as the replay. |
| ChangeSync.SyncChanges | connectors/cmis/services/src/main/java/org/exoplatform/clouddrive/cmis/JCRLocalCMISDrive.java:180-299 | The change log is replayed from an empty memory. Without events nothing is taken and the last token stays null. The checkpoints are the plan's saved tokens for the events taken. |
| Changes.SweepStep | connectors/cmis/services/src/main/java/org/exoplatform/clouddrive/cmis/JCRLocalCMISDrive.java:320-348 | One mirror is walked: it is removed, kept, or (when stale) stops the walk. After a stop, every later mirror is left untouched. |
| Changes.SweepList | connectors/cmis/services/src/main/java/org/exoplatform/clouddrive/cmis/JCRLocalCMISDrive.java:319-349 | Every mirror walked ends up removed, kept or left, and a walk that failed stopped at the first of those left. |
| Changes.SweepDecides | connectors/cmis/services/src/main/java/org/exoplatform/clouddrive/cmis/JCRLocalCMISDrive.java:319-349 | In a walk that completes, a mirror is kept exactly when its parent is not a cloud container, or its parent's id is among the remote parents. Every other mirror's path is removed. |
| Changes.SweepFailureSticks | connectors/cmis/services/src/main/java/org/exoplatform/clouddrive/cmis/JCRLocalCMISDrive.java:319-349 | A failure ends the walk: the rest of the list is left as it was. |
| Changes.FilterList | connectors/cmis/services/src/main/java/org/exoplatform/clouddrive/cmis/JCRLocalCMISDrive.java:331-336 | The iterator loop over one list computes `PruneList`. |
| Changes.VisitKey | connectors/cmis/services/src/main/java/org/exoplatform/clouddrive/cmis/JCRLocalCMISDrive.java:329-339 | Visiting one more key advances the cleaning exactly as `PartialPrune` describes. |
| Changes.PruneEntries | connectors/cmis/services/src/main/java/org/exoplatform/clouddrive/cmis/JCRLocalCMISDrive.java:328-341 | The whole cleaning loop for one removed path computes `PruneIndex`. |
| Changes.RemoveMirror | connectors/cmis/services/src/main/java/org/exoplatform/clouddrive/cmis/JCRLocalCMISDrive.java:328-344 | A doomed mirror's descendants leave the other lists, the mirror goes with its subtree, and its path is reported removed. |
| Changes.SweepOne | connectors/cmis/services/src/main/java/org/exoplatform/clouddrive/cmis/JCRLocalCMISDrive.java:320-348 | One turn of the walk on the drive does what `SweepList` prescribes for the next mirror. |
| Changes.SweepMirrors | connectors/cmis/services/src/main/java/org/exoplatform/clouddrive/cmis/JCRLocalCMISDrive.java:319-349 | The loop over the file's mirrors realises `SweepList` on the drive: the removals, the index cleaning and the removed paths. |
| Changes.DeleteListed | connectors/cmis/services/src/main/java/org/exoplatform/clouddrive/cmis/JCRLocalCMISDrive.java:315-353 | The same walk, with the file's list written back to hold the mirrors kept and those left. |
| Changes.DeleteFile | connectors/cmis/services/src/main/java/org/exoplatform/clouddrive/cmis/JCRLocalCMISDrive.java:311-355 | The effect is the one `Deleted` states. An id the index does not know changes nothing. Otherwise the walk of the file's list (`SweepList`) decides the outcome, the subtrees removed, the paths reported and the other lists pruned, as `SweepDecides` states. The file's key stays mapped even to an emptied list. |
| FileUpdate.FirstUnder | connectors/cmis/services/src/main/java/org/exoplatform/clouddrive/cmis/JCRLocalCMISDrive.java:387-393 | Where the scan stops: the first mirror that is removed (its `getParent()` throws) or whose parent is the given node. No earlier mirror is either, and none at all when absent. |
| FileUpdate.ScanMirrors | connectors/cmis/services/src/main/java/org/exoplatform/clouddrive/cmis/JCRLocalCMISDrive.java:386-394 | The scan fails (stale) exactly when it stops at a removed mirror. Otherwise it finds the mirror under the node, and the copy source is that mirror, or else the last mirror on the list. |
| FileUpdate.PlaceMirror | connectors/cmis/services/src/main/java/org/exoplatform/clouddrive/cmis/JCRLocalCMISDrive.java:397-406 | A missing mirror becomes a fresh copy of the folder mirror, subtree included, when there is one, of the copied kind. Otherwise it is the node `updateItem` opens or creates. Either way it is live under the parent. |
| FileUpdate.AddMirror | connectors/cmis/services/src/main/java/org/exoplatform/clouddrive/cmis/JCRLocalCMISDrive.java:397-408 | The placed mirror is appended to the file's list and reported changed. A failure leaves the index and the reports alone. |
| FileUpdate.RenameMirror | connectors/cmis/services/src/main/java/org/exoplatform/clouddrive/cmis/JCRLocalCMISDrive.java:409-413 | A mirror with another title is moved under the parent with the remote name and reported changed. A failure changes nothing. |
| FileUpdate.RefreshMirror | connectors/cmis/services/src/main/java/org/exoplatform/clouddrive/cmis/JCRLocalCMISDrive.java:414-421 | A mirror with the remote name is refreshed in place, and is reported only when it drifted. |
| FileUpdate.SyncMirror | connectors/cmis/services/src/main/java/org/exoplatform/clouddrive/cmis/JCRLocalCMISDrive.java:380-423 | For one parent node: a scan that reaches a removed mirror first fails with StaleNode and changes nothing. Otherwise an existing mirror stays on the list and ends up titled with the remote name; a missing one is added to the list (copied from the last mirror for a folder). Renamed and added mirrors are always reported. A title equal to the remote name is never changed. |
| FileUpdate.PurgeDecides | connectors/cmis/services/src/main/java/org/exoplatform/clouddrive/cmis/JCRLocalCMISDrive.java:429-436 | A final walk that did not fail keeps a node exactly when it was synced, and removes the path of every other node. |
| FileUpdate.PurgeStops | connectors/cmis/services/src/main/java/org/exoplatform/clouddrive/cmis/JCRLocalCMISDrive.java:429-436 | A removal that fails ends the walk. The failing node is already off the list, and the rest of the list is kept. |
| FileUpdate.RemoveRecorded | connectors/cmis/services/src/main/java/org/exoplatform/clouddrive/cmis/JCRLocalCMISDrive.java:433-434 | Removing an unsynced node succeeds exactly when it is live: it goes with its subtree and its path is reported. |
| FileUpdate.PurgeUnsynced | connectors/cmis/services/src/main/java/org/exoplatform/clouddrive/cmis/JCRLocalCMISDrive.java:427-437 | The final walk on the drive realises `PurgeList`: removals, reported paths, and the list written back. |
| FileUpdate.PurgeKeepsSynced | connectors/cmis/services/src/main/java/org/exoplatform/clouddrive/cmis/JCRLocalCMISDrive.java:427-437 | After a walk that did not fail, the list holds exactly the synced mirrors, and every unsynced mirror is no longer live. |
| FileUpdate.SyncUnder | connectors/cmis/services/src/main/java/org/exoplatform/clouddrive/cmis/JCRLocalCMISDrive.java:380-424 | Every local node of one remote parent gets a synced mirror on the file's list. The list only grows, and no other list or key changes. A title equal to the remote name is never changed, and every synced mirror that was already on the list carries the remote name. |
| FileUpdate.NodesOf | connectors/cmis/services/src/main/java/org/exoplatform/clouddrive/cmis/JCRLocalCMISDrive.java:375 | `nodes.get(pid)`: the local nodes of a parent are exactly those on its list, and none when the index does not know it. |
| FileUpdate.NewList | connectors/cmis/services/src/main/java/org/exoplatform/clouddrive/cmis/JCRLocalCMISDrive.java:383-385 | A file the index does not know gets a fresh empty list under its id. |
| FileUpdate.SyncListed | connectors/cmis/services/src/main/java/org/exoplatform/clouddrive/cmis/JCRLocalCMISDrive.java:380-424 | One parent's nodes are synced, creating the file's list first when there is none. Every visited parent node has a synced mirror under it. |
| FileUpdate.ParentStep | connectors/cmis/services/src/main/java/org/exoplatform/clouddrive/cmis/JCRLocalCMISDrive.java:374-425 | A parent id the index does not know fails with an inconsistency. A known one has all its nodes synced. |
| FileUpdate.SyncParents | connectors/cmis/services/src/main/java/org/exoplatform/clouddrive/cmis/JCRLocalCMISDrive.java:374-425 | The loop over the remote parents passes only when every parent id is known (or is the file itself). An inconsistency names an unknown parent. |
| FileUpdate.DropUnsynced | connectors/cmis/services/src/main/java/org/exoplatform/clouddrive/cmis/JCRLocalCMISDrive.java:427-437 | The file's list ends up holding exactly the synced mirrors. Every other mirror on it is no longer live, and the mirrors under the parents stay. |
| FileUpdate.UpdateFile | connectors/cmis/services/src/main/java/org/exoplatform/clouddrive/cmis/JCRLocalCMISDrive.java:367-438 | The effect is the one `Updated` states. The method fails with an inconsistency only when some parent is unknown. The index changes only in the file's list, which is found by `findDocumentNode` or created under its id. When the call passes: <br>• every parent node holds a synced mirror; <br>• the list holds exactly the synced mirrors; <br>• every unsynced mirror is gone; <br>• when no parent shares the file's list, the parent nodes visited are exactly those the index holds for the parents.<br>• every mirror that was on the file's list and was synced carries the remote name as its title, so a differing title was renamed. |
| Traversal.IsReadDone | connectors/cmis/services/src/main/java/org/exoplatform/clouddrive/cmis/JCRLocalCMISDrive.java:558-568 | The result is done exactly when every reader finished. Finished readers leave from the head up to the first running one, which heads what is left. |
| Traversal.Unmark | connectors/cmis/services/src/main/java/org/exoplatform/clouddrive/cmis/JCRLocalCMISDrive.java:599-612 | Marking an item existing drops exactly its mirrors at or below the updated path from its shared list. The item's key goes exactly when the list is left empty, and no other key changes. |
| Traversal.UnmarkIdempotent | connectors/cmis/services/src/main/java/org/exoplatform/clouddrive/cmis/JCRLocalCMISDrive.java:599-612 | Marking the same mirrors a second time changes nothing more. |
| Traversal.MarkExisting | connectors/cmis/services/src/main/java/org/exoplatform/clouddrive/cmis/JCRLocalCMISDrive.java:599-612 | The in-place pruning of `nodes` computes `Unmark`. |
| Traversal.WithNodes | connectors/cmis/services/src/main/java/org/exoplatform/clouddrive/cmis/JCRLocalCMISDrive.java:590-595 | Changed nodes are appended to the item's list of `allLocal`, which is created when absent. Other ids are unchanged. |
| Traversal.Record | connectors/cmis/services/src/main/java/org/exoplatform/clouddrive/cmis/JCRLocalCMISDrive.java:586-588 | A changed item is reported, then a chunk is saved. |
| Traversal.SyncAtParent | connectors/cmis/services/src/main/java/org/exoplatform/clouddrive/cmis/JCRLocalCMISDrive.java:585-612 | Under one parent: exactly a changed item is reported and added to `allLocal`, and its mirrors at or below its path are marked existing. |
| Traversal.SyncItem | connectors/cmis/services/src/main/java/org/exoplatform/clouddrive/cmis/JCRLocalCMISDrive.java:582-613 | An item is synced under each local node of its folder. The reports are its changed files, at most one per parent node. |
| Traversal.TakeItem | connectors/cmis/services/src/main/java/org/exoplatform/clouddrive/cmis/JCRLocalCMISDrive.java:579-623 | One consumer turn takes the head of the queue. An item whose folder has no local nodes is put back once, and fails the sync when taken again. The queue's remaining chances strictly decrease, so the loop ends. |
| Traversal.SyncChilds | connectors/cmis/services/src/main/java/org/exoplatform/clouddrive/cmis/JCRLocalCMISDrive.java:570-628 | The consumer polls at most twice per listed item. A missing-parent failure names an item whose folder never appeared. An uninterrupted pass found local nodes for the folder of every item. |
| Traversal.RemoveLeftover | connectors/cmis/services/src/main/java/org/exoplatform/clouddrive/cmis/JCRLocalCMISDrive.java:535-545 | A leftover node is removed and reported exactly when its path starts with no removed path. Either way it then lies below a removed path. |
| Traversal.RemoveList | connectors/cmis/services/src/main/java/org/exoplatform/clouddrive/cmis/JCRLocalCMISDrive.java:534-545 | After one list is walked, every node on it lies below a removed path. |
| Traversal.PollVisit | connectors/cmis/services/src/main/java/org/exoplatform/clouddrive/cmis/JCRLocalCMISDrive.java:532-545 | The interruption is checked before each key. Unless interrupted, the key's list is walked. |
| Traversal.VisitAll | connectors/cmis/services/src/main/java/org/exoplatform/clouddrive/cmis/JCRLocalCMISDrive.java:532-546 | An uninterrupted pass leaves every node the index lists below a removed path. No node changes its path. |
| Traversal.RemoveLeftovers | connectors/cmis/services/src/main/java/org/exoplatform/clouddrive/cmis/JCRLocalCMISDrive.java:529-546 | The root's key is dropped first. Then the leftover loop runs as `VisitAll` states. |
| Traversal.LoadLocal | connectors/cmis/services/src/main/java/org/exoplatform/clouddrive/cmis/JCRLocalCMISDrive.java:519-524 | The index is read from the store, and `allLocal` holds a copy of each key's list. |
| Traversal.Traverse | connectors/cmis/services/src/main/java/org/exoplatform/clouddrive/cmis/JCRLocalCMISDrive.java:517-556 | Every id with local nodes before the sync stays known. An uninterrupted pass found a folder for every listed item and dropped the root's key. Every node the index still lists lies below a removed path. |
| Connect.Fetched | connectors/cmis/services/src/main/java/org/exoplatform/clouddrive/cmis/JCRLocalCMISDrive.java:135-152 | No relationship is ever reported. |
| Connect.FetchedCovers | connectors/cmis/services/src/main/java/org/exoplatform/clouddrive/cmis/JCRLocalCMISDrive.java:135-149 | Every listed child that is not a relationship is reported. |
| Connect.FetchItem | connectors/cmis/services/src/main/java/org/exoplatform/clouddrive/cmis/JCRLocalCMISDrive.java:142-152 | A fetched item is reported as changed and is live. An item `updateItem` finds unchanged is an inconsistency, and nothing is reported. |
| Connect.FetchChild | connectors/cmis/services/src/main/java/org/exoplatform/clouddrive/cmis/JCRLocalCMISDrive.java:135-152 | One turn reports a prefix of what the child contributes (itself, then for a folder its subtree). An uninterrupted pass reports all of it. |
| Connect.FetchChilds | connectors/cmis/services/src/main/java/org/exoplatform/clouddrive/cmis/JCRLocalCMISDrive.java:132-156 | The reports are always a prefix of the listing's fetched objects, one for one in id and kind. They are all of them when the fetch passed uninterrupted. |
| Connect.FetchFiles | connectors/cmis/services/src/main/java/org/exoplatform/clouddrive/cmis/JCRLocalCMISDrive.java:109-130 | The repository token read before the listing, and the start time, are committed only by an uninterrupted, passing fetch, which reported every object. An interrupted fetch commits nothing. |
| SyncFacade.Choose | connectors/cmis/services/src/main/java/org/exoplatform/clouddrive/cmis/JCRLocalCMISDrive.java:711-735 | The route is: <br>• up to date exactly when the remote token is non-empty, there is no earlier error, and the tokens are equal; <br>• change log exactly when the tokens differ and the capability exists; <br>• traversal otherwise. |
| SyncFacade.RunChangeLog | connectors/cmis/services/src/main/java/org/exoplatform/clouddrive/cmis/JCRLocalCMISDrive.java:713-730 | A CMISException of the run is caught, and the last token left is empty. Any other failure escapes. A passing run yields the token of the last event taken, or empty when there was none. |
| SyncFacade.Finish | connectors/cmis/services/src/main/java/org/exoplatform/clouddrive/cmis/JCRLocalCMISDrive.java:737-750 | A traversal happens exactly when the last token is empty. The committed token is the remote token read at the start after a traversal, else the last token. |
| SyncFacade.Proceed | connectors/cmis/services/src/main/java/org/exoplatform/clouddrive/cmis/JCRLocalCMISDrive.java:711-750 | After the change log, the traversal runs exactly when a CMISException was caught, or when the log passed with no event, an earlier error or an empty last token. Otherwise the change log's last event token is committed. |
| SyncFacade.SyncFiles | connectors/cmis/services/src/main/java/org/exoplatform/clouddrive/cmis/JCRLocalCMISDrive.java:699-751 | The route is `Choose` on the stored and remote tokens. An up-to-date drive is left exactly as it was. A CMISException never escapes. On the change-log route, the traversal runs exactly when a CMISException was caught or the last token is empty. A passing sync commits the change log's last token, or after a traversal the remote token, and the start time. |
| Restore.RestoreTree | connectors/cmis/services/src/main/java/org/exoplatform/clouddrive/cmis/JCRLocalCMISDrive.java:1339-1352 | The object ends up as a live child at its name under the parent. A new folder node also has every listed child below it. No node moves or changes kind. |
| Restore.RestoreChildren | connectors/cmis/services/src/main/java/org/exoplatform/clouddrive/cmis/JCRLocalCMISDrive.java:1346-1349 | Every listed child is restored under the new folder node. |
| Restore.Without | connectors/cmis/services/src/main/java/org/exoplatform/clouddrive/cmis/JCRLocalCMISDrive.java:1369-1381 | The iterator removal drops exactly the entries equal to the id. |
| Restore.ClaimParent | connectors/cmis/services/src/main/java/org/exoplatform/clouddrive/cmis/JCRLocalCMISDrive.java:1369-1381 | The object is restored under the mirror's parent exactly when the parent's id is still among the remote parents. That id then leaves the list. |
| Restore.VisitNode | connectors/cmis/services/src/main/java/org/exoplatform/clouddrive/cmis/JCRLocalCMISDrive.java:1364-1394 | A mirror is refiled exactly when its parent's id is still pending. Otherwise it is removed unless it is ignored. |
| Restore.RemainingIff | connectors/cmis/services/src/main/java/org/exoplatform/clouddrive/cmis/JCRLocalCMISDrive.java:1364-1394 | A remote parent is left for the second loop exactly when no visited mirror's parent had its id. |
| Restore.ClaimedFirst | connectors/cmis/services/src/main/java/org/exoplatform/clouddrive/cmis/JCRLocalCMISDrive.java:1364-1394 | A mirror is refiled exactly when its parent's id is a remote parent and no earlier mirror's parent had it. |
| Restore.RestoreAt | connectors/cmis/services/src/main/java/org/exoplatform/clouddrive/cmis/JCRLocalCMISDrive.java:1401-1407 | The object is restored under every local node of the parent. The first node restored is the result. |
| Restore.RestoreUnder | connectors/cmis/services/src/main/java/org/exoplatform/clouddrive/cmis/JCRLocalCMISDrive.java:1397-1408 | The second loop restores the object under each local node it visits. There is a result exactly when it visited any. |
| Restore.VisitMirrors | connectors/cmis/services/src/main/java/org/exoplatform/clouddrive/cmis/JCRLocalCMISDrive.java:1364-1394 | The first loop settles every mirror in turn: refiled when its parent claims a pending remote parent, removed (unless ignored) otherwise. The parents left are those no mirror claimed. Under the parent of each refiled mirror the object's node sits at the object's name, and it is live unless it lies below a mirror the loop removed. |
| Restore.VisitTurn | connectors/cmis/services/src/main/java/org/exoplatform/clouddrive/cmis/JCRLocalCMISDrive.java:1364-1394 | One mirror's turn extends the fates, the remaining parents and the restored nodes, and keeps what earlier turns settled and restored. |
| Restore.Restore | connectors/cmis/services/src/main/java/org/exoplatform/clouddrive/cmis/JCRLocalCMISDrive.java:1354-1412 | An unknown id is NotFound, with nothing changed. Otherwise the mirrors are those `findNodes` gives. Each is refiled exactly when its parent's id is a remote parent not claimed by an earlier mirror; dropped mirrors were not ignored and are gone, and spared ones are ignored. Any result carries the object's id. Under the parent of each refiled mirror the object's node sits at the object's name, live unless it lies below a mirror the first loop removed. |
| OAuthToken.Added | services/core/src/main/java/org/exoplatform/clouddrive/oauth2/UserToken.java:61-62 | Adding keeps the set duplicate-free. A new listener goes last, after the others in order; adding one already present leaves the set and its order unchanged. |
| OAuthToken.Removed | services/core/src/main/java/org/exoplatform/clouddrive/oauth2/UserToken.java:71-72 | Exactly the given listener leaves the set. Removing an absent one changes nothing, and the set stays duplicate-free. |
| OAuthToken.RemoveUndoesAdd | services/core/src/main/java/org/exoplatform/clouddrive/oauth2/UserToken.java:61-73 | Removing a listener just added restores the set, order included. |
| OAuthToken.RemovedCutsOut | services/core/src/main/java/org/exoplatform/clouddrive/oauth2/UserToken.java:71-73 | Removal cuts the listener out at its place, and the others keep their order. |
| OAuthToken.ReaddedGoesLast | services/core/src/main/java/org/exoplatform/clouddrive/oauth2/UserToken.java:61-73 | A listener removed and added back goes last. The set keeps its size. |
| OAuthToken.UserToken.constructor | services/core/src/main/java/org/exoplatform/clouddrive/oauth2/UserToken.java:52-53 | A new token has no tokens, expiration 0 and no listeners. |
| OAuthToken.UserToken.AddListener | services/core/src/main/java/org/exoplatform/clouddrive/oauth2/UserToken.java:61-64 | The listener joins the set without duplication. It alone is called back once, with the current values. |
| OAuthToken.UserToken.RemoveListener | services/core/src/main/java/org/exoplatform/clouddrive/oauth2/UserToken.java:71-73 | Only the given listener leaves the set. Nobody is called back, and the fields stay. |
| OAuthToken.UserToken.Load | services/core/src/main/java/org/exoplatform/clouddrive/oauth2/UserToken.java:83-87 | Exactly the three fields take the given values. Listeners and the notification log are untouched. |
| OAuthToken.UserToken.FireListeners | services/core/src/main/java/org/exoplatform/clouddrive/oauth2/UserToken.java:163-167 | Every listener is called back once, in insertion order, with the current values. |
| OAuthToken.UserToken.Store | services/core/src/main/java/org/exoplatform/clouddrive/oauth2/UserToken.java:97-100 | The three fields take the given values. Then every listener is called back once, in insertion order, with those values. |
| OAuthToken.UserToken.RemoveListeners | services/core/src/main/java/org/exoplatform/clouddrive/oauth2/UserToken.java:152-154 | The set is empty afterwards. The token fields are untouched. |
| OAuthToken.UserToken.UnregisterListeners | services/core/src/main/java/org/exoplatform/clouddrive/oauth2/UserToken.java:143-145 | The set is empty afterwards. The token fields are untouched. |
| OAuthToken.UserToken.Merge | services/core/src/main/java/org/exoplatform/clouddrive/oauth2/UserToken.java:108-111 | `newToken` loses its listeners and keeps its three token fields. This token takes `newToken`'s values and calls back its own listeners, in order; a token merged into itself has none left to call. |

## Left out

- The worker side of the traversal is not modelled: `FolderReader`, the executor, futures, `Thread.sleep`/`yield` and the unwrapping of `ExecutionException`. The consumer runs over a given queue of listed items, all readers done; `IsReadDone` is modelled on its own over the readers' done flags.
- JCR itself is reduced to record updates: sessions, properties, node types, `previewLink`, the `initFile`/`initFolder` base-class bodies, and `initCMISItem`'s property-by-property copying. A refresh overwrites the mirrored fields, and each saved chunk is a checkpoint. The chunk size of the base class's `saveChunk` is not modelled.
- `rollbackAllChanges` and `initCMISItem(driveNode, root)` at the end of a traversal are not modelled. They are a history reset and a property copy.
- The drive node's id and URL set at connect are not modelled.
- Credentials are not modelled (`loadUser`, `saveAccess`, `ensureSame`, `updateAccess`). They are library calls and configuration.
- The CRUD pass-throughs of `FileAPI` to the remote API, `getFileContent` and `DocumentContent` are not modelled: they are thin wrappers over code that is not part of this model. Only the conflict adoption of `createFile`/`createFolder` is modelled.
- `fileAPI.getId` and `findNodes` come from the base class, which is not part of this model. They are the record's id and `LocalDrive.Members`.
- `api.getChanges`, `getAllVersion` and `isSyncableChange` belong to the CMIS API wrapper, which is not part of this model. They are inputs: the event sequence, the optional version list of an object, and the event's `syncable` flag.
- Clocks are not modelled: `System.currentTimeMillis` is an input `now`.
- Logging is not modelled.
- The Dropbox browser script and `NotApprovedException` are not modelled. They are UI code and an exception class.
- The order of `HashMap`/`HashSet` iteration is not modelled: the leftover loop visits keys in an unspecified order, and set iteration in `updateFile` follows the sequence given.
- UserToken: listener callbacks are foreign code. Each is an entry appended to a notification log, and a callback that throws is not modelled. The getters are plain reads of the three fields.
- Connect.FetchFiles: an interrupted fetch is only known to commit nothing and to have reported a prefix of the listing. What it left in the store is not stated.
- Traversal.SyncChilds: the contract states the polls, the errors and the folders found. The per-item reports and pruning are stated per turn (`TakeItem`, `SyncItem`), not lifted to the whole queue.
- Traversal.Traverse: which nodes the leftover loop removes is stated as "every node still listed lies below a removed path", not as the exact set of removals.
- ChangeSync.SyncChanges: the effect of each decision on the store is stated per event (`Perform`, `PerformAndSave` and `ApplyEvent`, through `Changes.Deleted` and `FileUpdate.Updated`), not folded over the whole run.
- SyncFacade.SyncFiles: the store after a traversal is as `Traversal.Traverse` states; only the committed token and time are lifted.
- Restore.RestoreUnder: the local nodes the second loop visits are not tied to `findNodes` of each remaining parent. The contract states that the object was restored under each of them, and that a result exists exactly when there was one.
- Restore.Restore: a node restored for a refiled mirror may be removed by a later turn of the same loop, when it lies below a mirror that loop drops (as the first loop of restore does). The contract therefore states it live only otherwise.
- Restore.Restore: the contract does not state that the object is restored under every local node of the parents left for the second loop. It also does not state which restored node is the result (the one at `path`, else the first of the second loop); only its id is stated.
- FileUpdate.UpdateFile: the parent nodes visited are tied to the index's lists for the parents only when no parent shares the file's own list.
- FileUpdate.UpdateFile: a synced node that was not on the file's list before the call (a copy, or the node updateItem opened or created) is stated to lie under a visited parent node. That it sits at the remote name is stated only per step, because a later rename in the same call may move the paths below it.
