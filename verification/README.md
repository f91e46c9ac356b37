# Undo, storage and recognisers of the device management engine

This project models parts of an OMA device management engine written in C++ and proves properties of the
model. Its main part is the read/write plugin tree: a management subtree kept at once as a flat map from
path to node and as child-name lists inside the nodes, whose every mutation first writes its inverse to a
log file, and whose `Rollback` replays that file backwards through the tree's own methods.

| file | what it models |
|---|---|
| `DmText.dfy`, `Uri.dfy` | C strings; node paths as strings and as segments |
| `DmtValue.dfy` | leaf values, their two logged forms, and how replay rebuilds them |
| `PluginTree.dfy` | the tree as a value, its operations, well-formedness, and what two trees have in common |
| `UndoLog.dfy` | the records each operation logs, and replay as popping a stack of records |
| `Rollback.dfy`, `Runs.dfy`, `Session.dfy` | what replay restores: one operation, any run, any interleaving with the transaction calls |
| `Replaying.dfy` | why the tree methods that replay calls always meet a tree they can walk |
| `Wbxml.dfy` | the bytes of a record, written and read |
| `LogLayout.dfy`, `PluginLog.dfy`, `LogReplay.dfy` | the log file as a doubly linked list of positions, the object that writes and scans it, and when the replay loop ends |
| `RwNode.dfy`, `RwPlugin.dfy`, `Client.dfy` | the node objects and the tree object, changed in place, proved against the operations on tree values, and a caller of them |
| `DmVector.dfy` | the growing vector over raw storage, and the map built from two of them |
| `PluginManager.dfy`, `PluginClient.dfy` | path matching, the life of plugin libraries, and a run of the manager |
| `Validation.dfy`, `DateTime.dfy` | the float, date and time recognisers |
| `SmartPtr.dfy`, `ThreadQueue.dfy`, `Notification.dfy` | reference counting, the bounded event ring, OMA DM Package #0 |

How the parts of the main result fit together: an object of class `RWTree` carries the tree it holds as a
ghost value, and every method states its effect as the operation on that value and its records as those of
`UndoLog`. `RWTree.PlayLog` follows the links of the real file and is proved equal to `UndoLog.Replay`.
`Session` then speaks about all runs. Comparisons are at one of three levels of detail: paths and kinds;
values as well; titles as well. Child order is never compared, because re-linking appends at the end.

What a rollback restores of a run is decided by the trace of each node of the start: followed through the
renames to its delete or to the end of the run, was its value set, what value did it hold last, and was it
deleted before its title was set? `Runs.Restores` says from these traces, for every run, whether a rollback
restores the start, and `Session` and `RWTree.Rollback` state both directions.

Where the code does less than its comments promise, the exact condition is proved for all inputs, next to a
concrete input where that shows more:

- With a root path of 128 characters and more, the log header is longer than `prevRecord` says, because the
  path needs a two-byte length (`HeaderLengthIff`). The second record then links back to a 0 byte for which
  the replay loop has no branch, and with two or more records the rollback does not end unless an unreadable
  record stops it before (`ReplayEndsIff`, `ReplayLeaves`, `LongRootSpins`, `OneRecordLongRoot`).
- The record of a set has no data element when the old value's text form is empty. The reader fails on it
  and the replay ends there, so everything logged earlier stays as it is (`RunRolledBackIff`,
  `EmptyTextIsLost`). Behind it may lie bytes that can be taken for such an element
  (`EmptyValueUnreadable`, `LookalikeIsRead`).
- A binary value is logged as base64 text by a set and stored as that text by replay; a set that changes the
  type is rebuilt with the type the leaf has by then (`SetRolledBackIff`, `BinaryComesBackAsText`, and for runs
  `RunUndone`, `DetourComesBack`).
- Replay of a delete does not restore titles (`DeleteRolledBackIff`, `TitleIsLost`, `RetitledThenDeleted`).
- A rename to a name another sibling has overwrites that sibling, lists the name twice and cannot be rolled
  back (`RenamedWFIff`, `RenameRolledBackIff`, `TakenNameIsLost`). A create without a parent reports an error and leaves its
  node in the map (`InsertedWFIff`).
- The file layer counts in 16 bits, so a string of 64 KiB and more comes back cut to its length modulo 65536
  (`RecordReadBack`, `ReadBackIff`, `LongTextIsCut`).
- A plugin library that loads when the table of libraries has no room for it is used all the same, and
  aging does not unload it (`LoadSymbol`, `CheckPluginAging`, `CallThenAge`).
- The notification parser reads past a package that is shorter than its server id (`Process`,
  `CutPackageRunsOver`, `HeaderAloneRunsOver`).

What functions of the model compute that the contracts rest on is stated once more without them, in numerals
and characters: the bytes of records and header, base64 and trimming, the split of lists and paths, the texts
of dates and times, the bits of a package, and what each operation makes of the tree.

Settings assumed: `DM_ATOMIC_SUPPORTED` and `DM_IGNORE_TSTAMP_AND_VERSION` defined, `LOB_SUPPORT` not
defined. In the tree and log, memory is always available and file operations succeed; in `DmVector`, and for
the table of plugin libraries, memory may run out at any allocation.

## Model

| member | source | states |
|---|---|---|
| `RwPlugin.RWTree.Rollback` | engine/dmlib/plugin/src/dmtRWPlugin.cc:690-734 | after any interleaving of mutations and transaction calls, and unless the replay loop spins, `Rollback` replays the file through the tree's own methods with logging off, keeps the tree well formed, and is back at the tree as of the last transaction call if and only if the mutations since then allow it; the status is an I/O failure if and only if a record could not be read; `m_Playback` is false again |
| `Client.CreateAndRollBack` | engine/dmlib/plugin/src/dmtRWPlugin.cc:588-734 | a caller that makes a tree, begins, creates a leaf and rolls back has the start again, titles included |
| `Session.RollbackReturnsToCheckpoint` | engine/dmlib/plugin/src/dmtRWPlugin.cc:632-734 | over all runs of Begin, Flush, Commit, Rollback and mutations, on tree values: a rollback returns to the last transaction call, at each level of detail, if and only if `Restores` holds of the mutations since then |
| `Session.PathsReturn` | engine/dmlib/plugin/src/dmtRWPlugin.cc:690-734 | when all records can be read, the same paths, kinds and child-name sets come back whatever values were set |
| `Session.EveryReachableTreeIsWellFormed` | engine/dmlib/plugin/src/dmtRWPlugin.cc:185-300 | flat map and child lists describe the same tree in every reachable state, including after rollbacks that stopped early |
| `Session.SessionInvariant` | engine/dmlib/plugin/src/dmtRWPlugin.cc:632-734 | at every point of a session the log is that of the mutations since the last transaction call, and leads back there from every tree with the present paths and kinds |
| `Runs.RunUndone` | engine/dmlib/plugin/src/SyncML_PlugIn_WBXMLLog.cc:753-976 | replaying the log of any readable run newest-first, from every tree of the shape it produced, restores its start if and only if every node, traced through the renames to its delete or the end, was never set or held, first and last, text of one kind (at first not empty) or a boolean, and lost no title |
| `Runs.RunBack` | engine/dmlib/plugin/src/SyncML_PlugIn_WBXMLLog.cc:753-976 | node by node, what such a replay makes of every node of the start: the first value rebuilt with the last format, and no title if the node was deleted before it was retitled |
| `Runs.RunRolledBack` | engine/dmlib/plugin/src/SyncML_PlugIn_WBXMLLog.cc:775-847 | for every run: the replay stops exactly at the newest record that cannot be read, on the tree right after its operation, with the later operations undone as their traces say |
| `Runs.RunRolledBackIff` | engine/dmlib/plugin/src/SyncML_PlugIn_WBXMLLog.cc:775-847 | for every run: the rollback restores the start if and only if `Restores` holds of its operations, a condition node by node on traces, and stops early if and only if some record cannot be read |
| `Runs.RunSkeletonUndone` | engine/dmlib/plugin/src/SyncML_PlugIn_WBXMLLog.cc:753-976 | paths, kinds and child-name sets come back from every tree with the paths and kinds the run produced, unless a record cannot be read |
| `Runs.OpBack` | engine/dmlib/plugin/src/SyncML_PlugIn_WBXMLLog.cc:869-976 | node by node, what the records of one operation do on every tree with the paths and kinds it produced |
| `Runs.DetourComesBack` | engine/dmlib/plugin/src/SyncML_PlugIn_WBXMLLog.cc:935-949 | the concrete run of two sets, neither undoable alone, that is restored |
| `Runs.RetitledThenDeleted` | engine/dmlib/plugin/src/SyncML_PlugIn_WBXMLLog.cc:953-956 | the concrete run whose older title record saves a title from a delete |
| `Runs.UnreadableStopsReplay` | engine/dmlib/plugin/src/SyncML_PlugIn_WBXMLLog.cc:481-509 | a replay that meets a value record without data ends on the tree right after that operation, which it restores if and only if the later operations come back |
| `Rollback.OpUndone` | engine/dmlib/plugin/src/dmtRWPlugin.cc:108-138 | the records one operation logs undo it, on every well-formed tree of the shape it produced |
| `Rollback.ApplyKeepsWF` | engine/dmlib/plugin/src/dmtRWPlugin.cc:588-630 | create, delete, rename and set keep the tree well formed |
| `Rollback.ApplyMakes` | engine/dmlib/plugin/src/dmtRWPlugin.cc:588-630 | what a create, a set and a new title change: one node of the given value or title, at the end of its parent's list if it is new |
| `Rollback.ApplyDeletes` | engine/dmlib/plugin/src/dmtRWPlugin.cc:224-300 | what a delete changes: the subtree is gone and one name from its parent's list, in place |
| `Rollback.ApplyRenames` | engine/dmlib/plugin/src/dmtRWPlugin.cc:822-979 | what a rename changes: the new name in every path of the subtree, and at the end of the parent's list |
| `Rollback.SetRolledBackIff` | engine/dmlib/plugin/src/SyncML_PlugIn_WBXMLLog.cc:935-949 | rolling back one `SetValue` restores the leaf if and only if both values are non-empty text of one kind or booleans, or nothing had changed |
| `Rollback.DeleteRolledBackIff` | engine/dmlib/plugin/src/SyncML_PlugIn_WBXMLLog.cc:886-922 | rolling back one delete restores paths, kinds and values always, and titles if and only if the subtree had none |
| `Rollback.RootDeleteRolledBackIff` | engine/dmlib/plugin/src/dmtRWPlugin.cc:108-138 | deleting the root, which logs no ADD_CHILD, empties the map, and a rollback rebuilds everything but the titles |
| `Rollback.RenameRolledBackIff` | engine/dmlib/plugin/src/dmtRWPlugin.cc:822-923 | rolling back one rename restores the tree if and only if no other sibling had the new name |
| `Rollback.EmptyTextIsLost` | engine/dmlib/plugin/src/SyncML_PlugIn_WBXMLLog.cc:481-509 | the concrete set that cannot be undone because the old value was the empty string |
| `Rollback.BinaryIsLost` | engine/dmlib/plugin/src/SyncML_PlugIn_WBXMLLog.cc:488-494 | the concrete binary set that comes back as base64 text |
| `Rollback.BinaryComesBackAsText` | engine/dmlib/dmtapi/native/src/dmtData.cc:230-255 | for every binary leaf that was set: what comes back is the base64 text of its data, a text that decodes to the data |
| `Rollback.TitleIsLost` | engine/dmlib/plugin/src/SyncML_PlugIn_WBXMLLog.cc:886-922 | the concrete delete whose rollback loses a title |
| `Rollback.TakenNameIsLost` | engine/dmlib/plugin/src/dmtRWPlugin.cc:822-979 | the concrete rename to a taken name whose rollback leaves one leaf of two |
| `Rollback.SetUndone` | engine/dmlib/plugin/src/dmtRWPlugin.cc:791-820 | undo of a set on every tree of the shape it produced |
| `Rollback.RenameUndone` | engine/dmlib/plugin/src/dmtRWPlugin.cc:822-923 | renaming back restores every path up to child order |
| `Rollback.CreateUndone` | engine/dmlib/plugin/src/dmtRWPlugin.cc:588-630 | undo of a create removes exactly what was created |
| `Rollback.DeleteUndone` | engine/dmlib/plugin/src/dmtRWPlugin.cc:131-135 | ADD_CHILD and the post-order ADDs invert the delete of any non-root subtree |
| `Rollback.ReattachedWF` | engine/dmlib/plugin/src/SyncML_PlugIn_WBXMLLog.cc:924-930 | the tree rebuilt by replaying a delete is well formed once its top is linked, last |
| `UndoLog.ParentsRebuiltFirst` | engine/dmlib/plugin/src/SyncML_PlugIn_WBXMLLog.cc:428-470 | replayed in reverse, the post-order ADD run re-creates every node once and before its descendants |
| `UndoLog.AddRecordsCover` | engine/dmlib/plugin/src/SyncML_PlugIn_WBXMLLog.cc:428-470 | the ADD records of a subtree name exactly its paths |
| `UndoLog.AddRecordsSay` | engine/dmlib/plugin/src/SyncML_PlugIn_WBXMLLog.cc:233-320 | every add record carries its node's title, and its child list or its value's format and raw data |
| `UndoLog.ReplaySubtree` | engine/dmlib/plugin/src/SyncML_PlugIn_WBXMLLog.cc:886-922 | replaying them rebuilds exactly the subtree |
| `UndoLog.UndoesCompose` | engine/dmlib/plugin/src/SyncML_PlugIn_WBXMLLog.cc:775-847 | undoing newer records and then older ones undoes the whole run |
| `Replaying.RollbackIsReady` | engine/dmlib/plugin/src/SyncML_PlugIn_WBXMLLog.cc:869-976 | no record that walks a subtree ever meets a tree that is not well formed, although replay passes through such trees |
| `PluginTree.DeleteEffect` | engine/dmlib/plugin/src/dmtRWPlugin.cc:185-300 | delete removes exactly the path and all its descendants and keeps the tree well formed |
| `PluginTree.RenameEffect` | engine/dmlib/plugin/src/dmtRWPlugin.cc:822-979 | rename to a fresh sibling replaces the path prefix in every descendant key and leaves all other entries alone |
| `PluginTree.RenamedWFIff` | engine/dmlib/plugin/src/dmtRWPlugin.cc:822-979 | a rename keeps map and child lists in agreement if and only if no other sibling has the new name, which the tree does not check |
| `PluginTree.RelocateShifts` | engine/dmlib/plugin/src/dmtRWPlugin.cc:925-979 | what is at every key after a subtree has moved, also over entries that were there |
| `PluginTree.RelocateBack` | engine/dmlib/plugin/src/dmtRWPlugin.cc:925-979 | moving a subtree back undoes the move |
| `PluginTree.CreateEffect` | engine/dmlib/plugin/src/dmtRWPlugin.cc:588-630 | create adds exactly one entry |
| `PluginTree.InsertedWFIff` | engine/dmlib/plugin/src/dmtRWPlugin.cc:588-630 | a create keeps map and child lists in agreement if and only if the parent is an interior node of the map and the path is new |
| `PluginTree.AncestorsExist` | engine/dmlib/plugin/src/dmtRWPlugin.cc:343-379 | every ancestor of a node is an interior node of the map |
| `PluginTree.ChildrenAreKeys` | engine/dmlib/plugin/src/dmtPlugin.cc:651-690 | in a well-formed tree a child list is, as a set, what the keys of the map say |
| `PluginTree.SameShapeSameChildren` | engine/dmlib/plugin/src/dmtRWPlugin.cc:356-359 | trees with the same paths and kinds have the same child-name sets |
| `RwPlugin.RWTree.Mutate` | engine/dmlib/plugin/src/dmtRWPlugin.cc:588-630 | whichever public mutation is called, tree and log take one step of the session, and a delete or rename of a missing path is reported |
| `RwPlugin.RWTree.DeleteNode` | engine/dmlib/plugin/src/dmtRWPlugin.cc:224-300 | the objects then hold the tree without the subtree, the root included; the records are the specified ones, or none during playback |
| `RwPlugin.RWTree.DeleteSubTree` | engine/dmlib/plugin/src/dmtRWPlugin.cc:185-222 | the recursion over child objects removes exactly the subtree's keys from the map |
| `RwPlugin.RWTree.UnlinkFromParent` | engine/dmlib/plugin/src/dmtRWPlugin.cc:241-297 | the removal loops and the unlogged re-set of the parent's list take exactly the one name off |
| `RwPlugin.RWTree.LinkToParentNode` | engine/dmlib/plugin/src/dmtRWPlugin.cc:343-379 | the name goes to the end of the parent's list without a record, and `m_Playback` is put back |
| `RwPlugin.RWTree.Rename` | engine/dmlib/plugin/src/dmtRWPlugin.cc:822-923 | the objects then hold the renamed tree, also when a sibling had the name, and the inverse record was written first |
| `RwPlugin.RWTree.RenameNode` | engine/dmlib/plugin/src/dmtRWPlugin.cc:329-341 | rename by path, with the not-found error |
| `RwPlugin.RWTree.RenameChildNodes` | engine/dmlib/plugin/src/dmtRWPlugin.cc:925-979 | the recursion that moves keys before it updates stored paths ends, and relocates exactly the subtree in map and objects, over whatever was at the new keys |
| `RwPlugin.RWTree.CreateLeafNode` | engine/dmlib/plugin/src/dmtRWPlugin.cc:588-609 | create, link and log of a leaf, and the new leaf itself is handed back; without a parent it fails, and the node stays in the map and is handed back all the same |
| `RwPlugin.RWTree.CreateInteriorNode` | engine/dmlib/plugin/src/dmtRWPlugin.cc:611-630 | the same for an interior node |
| `RwPlugin.RWTree.SetValue` | engine/dmlib/plugin/src/dmtRWPlugin.cc:791-820 | the leaf's value changes and the old one was logged |
| `RwPlugin.RWTree.SetTitle` | engine/dmlib/plugin/src/dmtRWPlugin.cc:763-783 | the title changes and the old one was logged |
| `RwPlugin.RWTree.LogCommand` | engine/dmlib/plugin/src/dmtRWPlugin.cc:108-138 | nothing is logged during playback; otherwise the inverse of the mutation is appended to the file |
| `RwPlugin.RWTree.LogAdd` | engine/dmlib/plugin/src/SyncML_PlugIn_WBXMLLog.cc:428-470 | the recursion over children writes the subtree's records in post-order |
| `RwPlugin.RWTree.PlayLog` | engine/dmlib/plugin/src/SyncML_PlugIn_WBXMLLog.cc:775-847 | whenever the loop ends with two or more records, or the root path is short: following back links in the file visits each record once, newest first, and refines popping the record stack; the status is an I/O failure if and only if a record could not be read |
| `RwPlugin.RWTree.PlaybackOneRecord` | engine/dmlib/plugin/src/SyncML_PlugIn_WBXMLLog.cc:869-976 | each record acts on the objects as it does on tree values |
| `RwPlugin.RWTree.Flush` | engine/dmlib/plugin/src/dmtRWPlugin.cc:663-688 | the log goes, the tree and the mode stay |
| `RwPlugin.RWTree.Begin` | engine/dmlib/plugin/src/dmtRWPlugin.cc:632-642 | atomic, with no log and the tree as it was |
| `RwPlugin.RWTree.Commit` | engine/dmlib/plugin/src/dmtRWPlugin.cc:644-656 | no longer atomic, with no log and the tree as it was |
| `RwPlugin.RWTree.GetNode` | engine/dmlib/plugin/src/dmtPlugin.cc:223-236 | lookup, with the not-found error |
| `RwPlugin.RWTree.GetChildNodeNames` | engine/dmlib/plugin/src/dmtPlugin.cc:238-267 | the list of an interior node, and the errors for a missing node and a leaf |
| `RwPlugin.RWTree.GetChildNodes` | engine/dmlib/plugin/src/dmtPlugin.cc:651-690 | the objects of all listed children if and only if all are in the map |
| `RwNode.RemoveName` | engine/dmlib/plugin/src/dmtRWPlugin.cc:862-888 | the loop with `break` removes the first occurrence |
| `RwNode.RemoveEveryName` | engine/dmlib/plugin/src/dmtRWPlugin.cc:252-270 | the loop that removes while it iterates removes exactly the one occurrence |
| `RwNode.MoveNext` | engine/dmlib/plugin/src/dmtRWPlugin.cc:952-975 | moving one more child's subtree moves exactly the entries not yet moved |
| `RwNode.AllMoved` | engine/dmlib/plugin/src/dmtRWPlugin.cc:925-979 | when all children have moved, the map is the old one with the prefix replaced |
| `RwPlugin.PlayStep` | engine/dmlib/plugin/src/SyncML_PlugIn_WBXMLLog.cc:797-845 | one turn of the replay loop pops one record |
| `LogLayout.BackLink` | engine/dmlib/plugin/src/SyncML_PlugIn_WBXMLLog.cc:145-183 | the word 8 bytes before the end of each record is where the record before it ended by `prevRecord`, and 0 at a header of the right length |
| `LogLayout.NextLink` | engine/dmlib/plugin/src/SyncML_PlugIn_WBXMLLog.cc:145-183 | the word 4 bytes before each place `prevRecord` has named is the end of the next record, 0 at the tail |
| `LogLayout.HeaderLengthIff` | engine/dmlib/plugin/src/SyncML_PlugIn_WBXMLLog.cc:193-222 | the header is root-path length + 16 bytes long if and only if the root path is shorter than 128 characters |
| `LogLayout.GapByte` | engine/dmlib/plugin/src/SyncML_PlugIn_WBXMLLog.cc:193-222 | for root paths of 128 characters and more the byte at the claimed end of the header is a 0, whatever has been logged |
| `LogReplay.ReplayEndsIff` | engine/dmlib/plugin/src/SyncML_PlugIn_WBXMLLog.cc:775-847 | with two or more records a replay ends if and only if the root path is shorter than 128 characters or an unreadable record other than the first stops it, and replays everything if and only if the path is short and every record readable |
| `LogReplay.ReplayFrom` | engine/dmlib/plugin/src/SyncML_PlugIn_WBXMLLog.cc:797-845 | the outcome of the loop from any record of the file, torn bytes behind the log or not, and the records it has played back |
| `LogReplay.ReplayLeaves` | engine/dmlib/plugin/src/SyncML_PlugIn_WBXMLLog.cc:775-847 | the tree the loop has made: the replay of all records, or with a long root path of all but the first, which makes no difference when the loop ends |
| `LogReplay.OneRecordLongRoot` | engine/dmlib/plugin/src/SyncML_PlugIn_WBXMLLog.cc:651-724 | with one record and a root path of 128 to 16383 characters the replay starts at position 1, and ends, without having replayed anything, if and only if the path has 240 to 495 characters |
| `LogReplay.LongRootSpins` | engine/dmlib/plugin/src/SyncML_PlugIn_WBXMLLog.cc:797-845 | the concrete root path of 128 characters and two records: the last links back to position 144, which holds a 0, and the loop never ends |
| `LogReplay.TornReplay` | engine/dmlib/plugin/src/SyncML_PlugIn_WBXMLLog.cc:651-724 | when a replay of a file with torn bytes starts at the last linked record, and that it then plays back what it would without them |
| `LogReplay.FilesAreLog` | engine/dmlib/plugin/src/SyncML_PlugIn_WBXMLLog.cc:394-610 | logging any records one by one gives such a file |
| `LogLayout.HeaderIsFreshLog` | engine/dmlib/plugin/src/SyncML_PlugIn_WBXMLLog.cc:193-222 | the words the reader finds in a header: an empty list for short root paths, and what lies there instead for long ones |
| `LogLayout.AppendedIsExtended` | engine/dmlib/plugin/src/SyncML_PlugIn_WBXMLLog.cc:145-183 | one record appended and one word patched extend the list by one |
| `LogLayout.EarlierBytesKept` | engine/dmlib/plugin/src/SyncML_PlugIn_WBXMLLog.cc:145-183 | later records change no byte before the patched word |
| `LogLayout.ReadAt` | engine/dmlib/dmengine/dm_persist/src/SyncML_DM_WBXMLReader.cc:369-495 | reading at the start of any record of the file gives that record back, and fails exactly for value records without data |
| `LogLayout.LookalikeIsRead` | engine/dmlib/dmengine/dm_persist/src/SyncML_DM_WBXMLReader.cc:441-448 | the concrete position word that is taken for a data element, so that a value record without data is read after all |
| `LogLayout.FirstWord` | engine/dmlib/plugin/src/SyncML_PlugIn_WBXMLLog.cc:193-198 | the first word of the file keeps the claimed end of the header |
| `LogLayout.HeaderBytes` | engine/dmlib/plugin/src/SyncML_PlugIn_WBXMLLog.cc:193-222 | the bytes of the header |
| `LogLayout.WordIs` | engine/dmlib/plugin/src/SyncML_PlugIn_WBXMLLog.cc:145-183 | a position word is four bytes, low byte first, with a sign |
| `PluginLog.Log.constructor` | engine/dmlib/plugin/src/SyncML_PlugIn_WBXMLLog.cc:95-133 | a new log holds the header and is ready for records |
| `PluginLog.Log.LogRecord` | engine/dmlib/plugin/src/SyncML_PlugIn_WBXMLLog.cc:394-610 | every completed record extends the linked list by one, with `prevRecord` the file length |
| `PluginLog.Log.UpdatePosition` | engine/dmlib/plugin/src/SyncML_PlugIn_WBXMLLog.cc:145-183 | back link, placeholder and patched previous placeholder |
| `PluginLog.Log.WriteLogHeader` | engine/dmlib/plugin/src/SyncML_PlugIn_WBXMLLog.cc:193-222 | the bytes of the header and the computed `prevRecord` |
| `PluginLog.Log.ScanForward` | engine/dmlib/plugin/src/SyncML_PlugIn_WBXMLLog.cc:685-703 | the forward scan ends, and stops at the start of the last linked record whatever torn bytes follow |
| `PluginLog.Log.GotoLastRecord` | engine/dmlib/plugin/src/SyncML_PlugIn_WBXMLLog.cc:651-724 | the position reported for a file that may end in torn bytes, on all its paths, and the byte handed to the replay |
| `PluginLog.TailWordIsLastLinked` | engine/dmlib/plugin/src/SyncML_PlugIn_WBXMLLog.cc:664-676 | on an untorn log the tail word gives the position the scan finds |
| `PluginLog.Log.ReadOneLogRecord` | engine/dmlib/dmengine/dm_persist/src/SyncML_DM_WBXMLReader.cc:369-495 | the reader returns the record logged there, or fails |
| `PluginLog.Log.GotoPreviousRecord` | engine/dmlib/plugin/src/SyncML_PlugIn_WBXMLLog.cc:816-844 | stepping back strictly lowers the position, to 0 at the first record |
| `Wbxml.RecordReadBack` | engine/dmlib/dmengine/dm_persist/src/SyncML_DM_WBXMLReader.cc:369-495 | what is read back of every record with strings of up to 32-bit length, except a value record without data: texts cut to their length modulo 65536, longer raw data with NULs for the rest |
| `Wbxml.ReadBackIff` | engine/dmlib/dmengine/dm_persist/src/SyncML_DM_WBXMLWriter.cc:84-124 | a record comes back as it was if and only if its texts are shorter than 64 KiB and its raw data is or ends in NULs |
| `Wbxml.LongTextIsCut` | engine/dmlib/dmengine/dm_persist/src/SyncML_DM_WBXMLReader.cc:441-448 | a set of a text value can be undone only if the old text is shorter than 64 KiB; otherwise the rebuilt value differs |
| `Wbxml.RecordRoundTrip` | engine/dmlib/dmengine/dm_persist/src/SyncML_DM_WBXMLReader.cc:369-495 | every record whose strings are shorter than 64 KiB is read back as it was written |
| `Wbxml.EmptyValueUnreadable` | engine/dmlib/dmengine/dm_persist/src/SyncML_DM_WBXMLReader.cc:441-448 | a value record without data can be read if and only if the bytes behind it happen to be a data element |
| `Wbxml.LenRoundTrip` | engine/dmlib/dmengine/dm_persist/src/SyncML_DM_WBXMLWriter.cc:84-124 | the multi-byte length code reads back |
| `Wbxml.FileRoundTrip` | engine/dmlib/dmengine/dm_persist/src/SyncML_DM_WBXMLReader.cc:227-354 | the leaf properties written by an ADD read back |
| `Wbxml.FolderRoundTrip` | engine/dmlib/dmengine/dm_persist/src/SyncML_DM_WBXMLReader.cc:227-354 | the child list written by an ADD reads back |
| `Wbxml.HeadBytesAre` | engine/dmlib/plugin/src/SyncML_PlugIn_WBXMLLog.cc:334-370 | the bytes of the front of every record |
| `Wbxml.RecordBytes` | engine/dmlib/plugin/src/SyncML_PlugIn_WBXMLLog.cc:472-606 | the bytes of every record but an add |
| `Wbxml.AddRecordBytes` | engine/dmlib/dmengine/dm_persist/src/SyncML_DM_WBXMLWriter.cc:138-297 | the bytes of an add record, element by element |
| `Wbxml.LenBytesAre` | engine/dmlib/dmengine/dm_persist/src/SyncML_DM_WBXMLWriter.cc:84-124 | the length bytes of anything shorter than 64 KiB |
| `Wbxml.LenMeans` | engine/dmlib/dmengine/dm_persist/src/SyncML_DM_WBXMLReader.cc:83-104 | any length that can be read is the number of its septets on 32 bits |
| `Wbxml.AcceptedHead` | engine/dmlib/dmengine/dm_persist/src/SyncML_DM_WBXMLReader.cc:369-424 | what the reader takes for the front of a record |
| `Wbxml.NodeElement` | engine/dmlib/dmengine/dm_persist/src/SyncML_DM_WBXMLReader.cc:226-354 | what each element of a node sets, by its tag, and which are refused |
| `DmtValue.AddRestores` | engine/dmlib/dmengine/dm_tnm/src/dm_tree_util.cc:40-73 | an ADD gives a leaf of any type its value back |
| `DmtValue.SetRestores` | engine/dmlib/dmengine/dm_tnm/src/dm_tree_util.cc:40-73 | a REPLACE gives a leaf its value back if and only if both values are non-empty text of one kind or booleans |
| `DmtValue.BuildDataValid` | engine/dmlib/dmtapi/native/src/dmtData.cc:59-94 | whatever replay rebuilds is a value a leaf can hold |
| `DmtValue.BuildMeans` | engine/dmlib/dmengine/dm_tnm/src/dm_tree_util.cc:40-73 | what is rebuilt of any data, format by format |
| `DmtValue.BoolTexts` | engine/dmlib/dmtapi/native/src/dmtData.cc:59-94 | the texts of the booleans, and that exactly the text false in any case is read as false |
| `DmtValue.TrimMeans` | engine/dmlib/dmtapi/native/src/dmtData.cc:59-94 | a text with other characters than blanks is cut to what lies between the first and the last of them |
| `DmtValue.Base64Decodes` | engine/dmlib/dmtapi/native/src/dmtData.cc:230-255 | the text of binary data decodes, by the ranges of the base64 alphabet, to the data |
| `DmtValue.Base64Unique` | engine/dmlib/dmtapi/native/src/dmtData.cc:230-255 | no other text does |
| `Uri.SplitJoin` | engine/dmlib/dmengine/dm_util/src/dm_uri_utils.cc:132-153 | splitting the joined names gives the names |
| `Uri.JoinInjective` | engine/dmlib/plugin/src/dmtPlugin.cc:223-236 | different nodes never share a key of the map |
| `Uri.ParseJoined` | engine/dmlib/dmengine/dm_util/src/dm_uri_utils.cc:113-130 | parsing a stored path gives the parent's path and the node's name, which stays empty directly under the root |
| `Uri.StrToStringVector` | engine/dmlib/dmengine/dm_util/src/dm_uri_utils.cc:132-153 | the peeling loop computes the split |
| `Uri.SplitMeans` | engine/dmlib/dmengine/dm_util/src/dm_uri_utils.cc:132-153 | what any list is split into: items without a slash that give the list again, but for a slash at its end |
| `Uri.JoinIsGlue` | engine/dmlib/plugin/src/SyncML_PlugIn_WBXMLLog.cc:262-273 | the string form of a path is its names with a slash between them |
| `Uri.ParseMeans` | engine/dmlib/dmengine/dm_util/src/dm_uri_utils.cc:113-130 | what any string is parsed into: what lies before its last slash, and behind it up to a question mark |
| `DmVector.DMVector.SetSize` | engine/dmlib/api/native/dmvector.h:607-634 | contents after a resize; a failed resize changes nothing; the capacity is the largest size since last emptied, rounded up to 4 |
| `DmVector.DMVector.Reallocate` | engine/dmlib/api/native/dmvector.h:641-672 | storage grows only, except to nothing; elements survive the move |
| `DmVector.DMVector.PushBack` | engine/dmlib/api/native/dmvector.h:685-693 | appends, or changes nothing and returns the old last index |
| `DmVector.DMVector.Remove` | engine/dmlib/api/native/dmvector.h:727-736 | the element goes, the rest keep their order; outside indices are ignored |
| `DmVector.DMVector.Find` | engine/dmlib/api/native/dmvector.h:749-758 | the first index, or -1 when absent |
| `DmVector.DMVector.Assign` | engine/dmlib/api/native/dmvector.h:568-581 | an exact copy, or empty when memory runs out or a vector is assigned to itself |
| `DmVector.DMMap.Put` | engine/dmlib/api/native/dmvector.h:870-891 | under every pattern of allocation failures the entry is stored or nothing changes |
| `DmVector.DMMap.Remove` | engine/dmlib/api/native/dmvector.h:904-915 | the entry goes and the order of the other keys stays |
| `DmVector.DMMap.Lookup` | engine/dmlib/api/native/dmvector.h:929-939 | the finite map's lookup |
| `DmVector.AppendEntry` | engine/dmlib/api/native/dmvector.h:876-885 | a new key at the end of both vectors is one new entry of the finite map |
| `DmVector.UpdateEntry` | engine/dmlib/api/native/dmvector.h:889 | an overwritten value is one changed entry |
| `DmVector.RemoveEntry` | engine/dmlib/api/native/dmvector.h:907-911 | removing one index from both vectors removes one entry |
| `PluginManager.PathMatch` | engine/dmlib/plugin/src/dmPluginManager.cc:512-550 | without a star the node path begins with the plugin path; with one it is the part before the first star, anything, the part behind it, anything |
| `PluginManager.CoversWithStar` | engine/dmlib/plugin/src/dmPluginManager.cc:512-550 | with a first '*' the match is exactly node path = a + x + b + y |
| `PluginManager.DMPluginManager.FindPlugin` | engine/dmlib/plugin/src/dmPluginManager.cc:553-566 | the lowest-index plugin that answers for the path by that rule, or none |
| `PluginManager.DMPluginManager.LoadLib` | engine/dmlib/plugin/src/dmPluginManager.cc:62-73 | the recorded handle or a fresh one, recorded even when the load failed, and returned even when the table cannot grow |
| `PluginManager.LoadedOnce` | engine/dmlib/plugin/src/dmPluginManager.cc:62-73 | a library on record, or recorded now, has the same handle at every later load; without room each load is a fresh one |
| `PluginManager.DMPluginManager.LoadSymbol` | engine/dmlib/plugin/src/dmPlugin.cc:103-127 | an empty handle becomes that of the library the plugin's parameters name for the kind, loaded if need be, and with a handle the function is looked up, with nothing else changed; pointers stay inside libraries in memory; a handle escapes the table if and only if a library not on record loads without room under a handle of its own |
| `PluginManager.DMPluginManager.Call` | engine/dmlib/plugin/src/dmPlugin.cc:158-208 | a missing symbol is loaded before the call, one that is there is not loaded again, and the pointer called through points into a library that is in memory |
| `PluginManager.WhatACallLoads` | engine/dmlib/plugin/src/dmPlugin.cc:103-127 | which library a call loads, when, and what it leaves alone |
| `PluginManager.DMPluginManager.GetTree` | engine/dmlib/plugin/src/dmPlugin.cc:131-156 | the same for `GetTree`, which loads nothing when the plugin has its tree |
| `PluginManager.DMPluginManager.UnloadIdle` | engine/dmlib/plugin/src/dmPluginManager.cc:704-716 | exactly the idle plugins lose their symbols and tree, although a plugin may be met several times |
| `PluginManager.DMPluginManager.IdleMeans` | engine/dmlib/plugin/src/dmPluginManager.cc:704-716 | idle is not accessed for the aging time, on a clock of 32 bits that may have wrapped around, with something loaded |
| `PluginManager.DMPluginManager.DropUnheld` | engine/dmlib/plugin/src/dmPluginManager.cc:719-738 | the backwards loop that removes while iterating keeps exactly the held libraries in the table, and unloads exactly those it takes off |
| `PluginManager.DMPluginManager.CheckPluginAging` | engine/dmlib/plugin/src/dmPluginManager.cc:697-740 | afterwards the table has exactly those of its libraries that some registered plugin holds, which are all held ones if all were recorded; a library leaves memory if and only if it was in the table and nobody holds it |
| `PluginClient.CallThenAge` | engine/dmlib/plugin/src/dmPluginManager.cc:62-73 | the concrete run of one call and aging: the library is unloaded if and only if there was room for its record |
| `PluginManager.DMPluginManager.AddPlugin` | engine/dmlib/plugin/src/dmPluginManager.cc:174-292 | a plugin is of the kinds whose parameters are there, with the libraries that those parameters name, and is registered once under each; one that is both data and overlay is rejected |
| `Validation.GreedyIsGrammar` | engine/xpl/src/dmNewDataTypesValidation.cc:136-226 | the greedy cursor is sound and complete for the float grammar |
| `Validation.IsFloat` | engine/xpl/src/dmNewDataTypesValidation.cc:215-226 | accepts exactly the grammar |
| `Validation.IsNumber` | engine/xpl/src/dmNewDataTypesValidation.cc:136-158 | the longest run of digits within bounds, never past the end |
| `Validation.IsExponent` | engine/xpl/src/dmNewDataTypesValidation.cc:190-201 | the exponent recogniser's offset, never past the end |
| `Validation.IsMantissa` | engine/xpl/src/dmNewDataTypesValidation.cc:203-213 | the mantissa recogniser's offset, never past the end |
| `Validation.Advance` | engine/xpl/src/dmNewDataTypesValidation.cc:63-76 | the cursor moves by a positive offset that stays inside |
| `DateTime.IsDate` | engine/xpl/src/dmNewDataTypesValidation.cc:423-450 | accepts exactly the dates that `IsDateText` writes out in numerals and characters, in 11 forms |
| `DateTime.DatesAre` | engine/xpl/src/dmNewDataTypesValidation.cc:285-450 | the layouts allow exactly those texts |
| `DateTime.IsTime` | engine/xpl/src/dmNewDataTypesValidation.cc:558-581 | the same for times, in 7 forms |
| `DateTime.TimesAre` | engine/xpl/src/dmNewDataTypesValidation.cc:455-581 | the layouts allow exactly those texts |
| `DateTime.IsLayout` | engine/xpl/src/dmNewDataTypesValidation.cc:292-414 | fields in turn on a copied cursor: the layout's width or 0, never past the end |
| `DateTime.IsNumberInRange` | engine/xpl/src/dmNewDataTypesValidation.cc:235-255 | a fixed-width number with a value in range |
| `DateTime.AtMostOneDateLayout` | engine/xpl/src/dmNewDataTypesValidation.cc:423-450 | no text is in two date layouts |
| `DateTime.AtMostOneTimeLayout` | engine/xpl/src/dmNewDataTypesValidation.cc:558-581 | no text is in two time layouts |
| `DateTime.PrintDecodes` | engine/xpl/src/dmNewDataTypesValidation.cc:292-414 | printing values that fit is accepted and decodes back |
| `DateTime.DateTimeRoundTrip` | engine/xpl/src/dmNewDataTypesValidation.cc:292-581 | every date or time with values in range is accepted when printed, and decodes back |
| `DateTime.DateTimeDecodes` | engine/xpl/src/dmNewDataTypesValidation.cc:292-581 | every accepted date or time is the print of values in range |
| `DateTime.DecodePrints` | engine/xpl/src/dmNewDataTypesValidation.cc:292-414 | everything accepted in a layout is the print of its in-range values |
| `SmartPtr.Heap.DecRef` | engine/dmlib/api/native/jem_defs.hpp:422-429 | releases run through member pointers: of every object that goes, all member pointers go too, and every count stays equal to the number of holders |
| `SmartPtr.Heap.DestroyMembers` | engine/dmlib/api/native/jem_defs.hpp:422-429 | the destructors of an object's member pointers, which delete further objects |
| `SmartPtr.Heap.Assign` | engine/dmlib/api/native/jem_defs.hpp:111-120 | an object held before is alive exactly if still held; the pointers that go are exactly the members of the objects that go; self-assignment changes nothing |
| `SmartPtr.Heap.AssignFrom` | engine/dmlib/api/native/jem_defs.hpp:133-136 | the same from another smart pointer, itself included |
| `SmartPtr.Heap.Destroy` | engine/dmlib/api/native/jem_defs.hpp:141-144 | the destructor releases what the pointer held; the pointers that go are this one and exactly the members of the objects that go |
| `SmartPtr.ChainFalls` | engine/dmlib/api/native/jem_defs.hpp:422-429 | when the pointer to the first object of a chain has gone, the object at every place of the chain has |
| `SmartPtr.DestroyChain` | engine/dmlib/api/native/jem_defs.hpp:141-144 | destroying the pointer to the first object of a chain of any length deletes all its objects |
| `SmartPtr.Heap.Copy` | engine/dmlib/api/native/jem_defs.hpp:92 | a copy holds the same object and is counted |
| `SmartPtr.Heap.Construct` | engine/dmlib/api/native/jem_defs.hpp:98 | a pointer made from a plain one is counted |
| `SmartPtr.StillHeld` | engine/dmlib/api/native/jem_defs.hpp:422-429 | deletion happens exactly on the last release |
| `SmartPtr.Retarget` | engine/dmlib/api/native/jem_defs.hpp:111-120 | counting up the new object before the old one is released keeps all counts right |
| `ThreadQueue.EveryRunConserves` | engine/xpl/src/dmThreadQueue.cc:34-102 | in every interleaving of critical sections, delivered events followed by the ring are the accepted events |
| `ThreadQueue.DeliveredInOrder` | engine/xpl/src/dmThreadQueue.cc:72-102 | a delivery is the oldest undelivered event, and a timer event takes none |
| `ThreadQueue.RefusedOnlyWhenFull` | engine/xpl/src/dmThreadQueue.cc:34-53 | in every interleaving a post is refused, without a trace, if and only if the ring is full at its second look, and the ring was full at its first look earlier in the run |
| `ThreadQueue.GapBeganFull` | engine/xpl/src/dmThreadQueue.cc:34-46 | a thread in the unlocked wait of `Post` posted that event at an earlier step, met a full ring, and has been there since |
| `ThreadQueue.DMThreadQueue.PostAgain` | engine/xpl/src/dmThreadQueue.cc:44-53 | recheck and store under the lock: a step of the state machine that accepts the event if and only if it returns true |
| `ThreadQueue.DMThreadQueue.PostFirst` | engine/xpl/src/dmThreadQueue.cc:34-53 | the same for the first look at the ring |
| `ThreadQueue.DMThreadQueue.Finish` | engine/xpl/src/dmThreadQueue.cc:88-101 | timer first, then the oldest event, and what the state machine delivers |
| `ThreadQueue.DMThreadQueue.WaitFirst` | engine/xpl/src/dmThreadQueue.cc:72-101 | the first critical section of `Wait` is a step of the state machine, and its outcome says what was delivered |
| `ThreadQueue.DMThreadQueue.WaitAgain` | engine/xpl/src/dmThreadQueue.cc:77-101 | the same for the section after the condition wait |
| `ThreadQueue.DMThreadQueue.SetTimer` | engine/xpl/src/dmThreadQueue.cc:62-70 | a step of the state machine |
| `ThreadQueue.DMThreadQueue.KillTimer` | engine/xpl/src/dmThreadQueue.cc:55-60 | a step of the state machine |
| `Notification.DecodeEncode` | engine/dmlib/notification_agent/src/dmNotification.cc:70-130 | every field of an encoded package is read back |
| `Notification.EncodeDecode` | engine/dmlib/notification_agent/src/dmNotification.cc:70-130 | every accepted package is the encoding of its fields |
| `Notification.FieldsAre` | engine/dmlib/notification_agent/src/dmNotification.cc:70-130 | the fields of a package by byte and bit |
| `Notification.ServerIdSurvives` | engine/dmlib/notification_agent/src/dmNotification.cc:108-118 | a NUL-free server id comes back as the same text |
| `Notification.DmtNotification.Process` | engine/dmlib/notification_agent/src/dmNotification.cc:44-147 | the walking parser computes those fields, fails exactly for short packages and server ids of 0 or more than 23 bytes, and copies past the buffer exactly when the length byte announces 1 to 23 bytes that are not all there |
| `Notification.CutPackageRunsOver` | engine/dmlib/notification_agent/src/dmNotification.cc:108-115 | a package cut short makes it run over exactly when the cut is inside the server id |
| `Notification.HeaderAloneRunsOver` | engine/dmlib/notification_agent/src/dmNotification.cc:108-115 | the concrete package of 24 bytes with a length byte of 23 |

Helpers without a row split a proof into steps or name a notion used in the rows.

## Left out

- RwPlugin.RWTree.Rename: does not model renaming the root, or a new name that is empty or holds a delimiter.
- RwPlugin.RWTree.SetValue: does not model a set on an interior node by an outside caller, which the log rejects after writing part of a record.
- RwPlugin.RWTree.Mutate: requires that the log still fits: positions below 2^31, fields and the root path below 64 KiB (longer fields are followed up to the reader only, in `Wbxml`), and no back link from position 65536 on, right behind a value record without data, whose two low bytes are the front of a data element.
- RwPlugin.RWTree.PlayLog: asks, as `Rollback` does, for a root path shorter than 128 characters or an unreadable record besides the first; what the loop does otherwise, with one record or spinning, is stated in `LogReplay`.
- RwPlugin.RWTree.LinkToParentNode: the `SetValue` of the parent's list happens with logging off, so the call of `LogCommand` inside it, which returns at once, is not repeated in the model.
- Wbxml.FileRoundTrip: the name element of the root's own record is empty in the model, where the source writes the last part of the plugin's full path; replay does not read it.
- PluginLog.Log.GotoLastRecord: covers torn tails of any bytes; a replay that starts elsewhere than at the last linked record, because the torn tail word happens to point at another entry byte, is not followed further.
- DmVector.DMVector.PushBack: does not model appending an element of the same vector by reference.
- PluginManager.DMPluginManager.GetTree: the tree object of a plugin is a flag; its lifetime across an unload is not modelled.
- DateTime.IsLayout: the straight-line recognisers of the layouts are one loop over a table of fields; the fields, their order and their ranges are the source's.
- Notification.DmtNotification.Process: what happens after the parser has read past the package is not modelled; the 8-bit trigger length and the digest check are parameters.
- SmartPtr.Heap.Destroy: objects and pointers are names in one heap object, so the memory of a deleted object is not modelled, and a member pointer is destroyed only with its object.
- Crash recovery with a half-applied operation: it depends on reload code that is not part of this model.
- Chunked and external storage (`LOB_SUPPORT`), backup files and their completeness check.
- File buffering, input/output failure branches, `setLogFileHandle` and `fpLog`.
- Undefined, XML and base64 leaf formats, node flags, timestamps and versions in log records.
- Case-insensitive comparison beyond ASCII letters when a boolean is read from text.
- Timer and timespec arithmetic of the event queue: a timer's readiness is a verdict of the clock.
- `DeInit`, mounting of plugin nodes, plugin configuration files and the feature-blocking rules.
- Server authentication, alerts, connectors, the Java bridges, logging and profiling: input/output or easy members.
