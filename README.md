# Scene Builder editor controller: a Dafny model

This project models the selection and control-action logic of Scene Builder's
`EditorController`. That class sits between the FXOM document (the tree of FXML
objects being edited), the selection, the job manager's undo/redo history, and
an inline text-editing session. It decides which actions are executable, and it
performs the selection actions, the insertion of a library item and the loading
of a new document.

Modules:

- `Wrappers` (`wrappers.dfy`): `Option`, which stands in for a Java reference that may be null.
- `Fxom` (`fxom.dfy`): the document tree.
  - A root, a parent map and each object's depth, so ancestor walks terminate.
  - For objects whose design-hierarchy mask accepts sub-components, their sub-component list.
  - The row and column counts of grid panes.
  - The effect of the insert-as-sub-component job, which appends the new object under the target.
- `Selections` (`selection.dfy`): the selection.
  - It is empty, an object selection group (a set of objects) or a grid selection group (a grid pane, ROW or COLUMN, and a set of indices).
  - The operations the controller calls: `isEmpty`, `isSelected`, `getAncestor`, `select` (one object, a list of objects, one grid index), `toggleSelection`, `clear`.
  - `getAncestor` is the nearest common strict ancestor of the selected objects, and for a grid group its grid pane.
- `Jobs` (`jobs.dfy`): the edit actions and the table that gives each action the job it builds.
  - A job is a token, and whether it is executable is asked of a probe.
  - The job manager's linear history (push, undo, redo, clear, canUndo, canRedo).
- `Editor` (`editor.dfy`): the controller.
  - The `can*` predicates are functions of the document and the selection.
  - `EditorController` is a class whose fields are the document, the selection, the history and the text-editing-session flag.
  - Its methods are the state changes, proved against specification functions (`SelectAllResult`, `ParentOfSelection`, `InsertTarget`).
  - `IsTextEditingSessionOnGoing` reads the session flag.

The class invariant `ValidState` says two things:
- the selection is well formed (a group is never empty);
- a non-empty selection refers only to objects of a loaded document that has a root, and only to rows or columns its grid pane has.

Every state change keeps it. The source's assertions marked "Because of (1)" are proved from the matching `can*` predicate and this invariant: the common ancestor exists (lines 1125, 1253, 1307, 1338), the group is an object group (1223), and the library item instantiates (1129). The last one rests on a library item's instantiation succeeding or failing the same way on the two `instantiate()` calls (lines 1128 and 1171); see "## Left out".

Three readings of the code that the model commits to:

- Common ancestor. The comment at EditorController.java:1162 calls `getAncestor` the "common parent of the selected objects", and the model takes the strict reading: for one selected object it is that object's parent, and for two objects one of which lies above the other it is the parent of the higher one. A reading where `getAncestor({a, b})` is `a` itself when `a` lies above `b` would make SELECT_PARENT on a single object select that same object.
- SELECT_ALL on a grid group whose axis has size 0. The loop at EditorController.java:1277-1280 selects index 0 before it tests the size, so index 0 is still selected. `SelectAllResult` does the same. `SelectAllGridSelectsWholeAxis` shows the case cannot arise in a consistent state.
- `canGetFxmlText` asks the session's end-request callback. By the protocol at EditorController.java:280-283, the callback either ends the session and answers true, or keeps it and answers false. So the answer is not simply "false while a session is on going". `CanGetFxmlText` takes the callback's decision as a parameter.

## Model

| member | source | states |
|---|---|---|
| Fxom.InsertAsSubComponent | apps/scenebuilder/SceneBuilderKit/src/com/oracle/javafx/scenebuilder/kit/editor/EditorController.java:1128-1135 | inserting the new object under the target keeps the tree valid; the object becomes the target's last sub-component and its parent, one level below it; it accepts sub-components and has a grid size as its mask says; no other sub-component list, depth or grid size changes |
| Selections.Selection.GetAncestor | apps/scenebuilder/SceneBuilderKit/src/com/oracle/javafx/scenebuilder/kit/editor/EditorController.java:1161-1165 | getAncestor exists iff the selection is non-empty and the root is not selected; for a grid group it is the grid pane; for an object group it is an object of the document that is a strict ancestor of every selected object |
| Selections.CommonAncestorIsNearest | apps/scenebuilder/SceneBuilderKit/src/com/oracle/javafx/scenebuilder/kit/editor/EditorController.java:1162-1164 | any strict ancestor common to all selected objects is getAncestor's result or one of its ancestors |
| Selections.AncestorIsNearestCommon | apps/scenebuilder/SceneBuilderKit/src/com/oracle/javafx/scenebuilder/kit/editor/EditorController.java:1162-1164 | for an object group, getAncestor exists iff the root is not selected; it is a strict ancestor of every selected object, and every other common strict ancestor lies above it |
| Selections.SubComponentsAncestor | apps/scenebuilder/SceneBuilderKit/src/com/oracle/javafx/scenebuilder/kit/editor/EditorController.java:1252-1257 | selecting the non-empty sub-component list of an object gives a consistent selection whose common ancestor is that object |
| Selections.Selection.Select | apps/scenebuilder/SceneBuilderKit/src/com/oracle/javafx/scenebuilder/kit/editor/EditorController.java:1249 | select(object): afterwards exactly that object is selected |
| Selections.Selection.SelectObjects | apps/scenebuilder/SceneBuilderKit/src/com/oracle/javafx/scenebuilder/kit/editor/EditorController.java:1257 | select(objects): the selected objects are exactly those of the list; an empty list empties the selection |
| Selections.Selection.SelectIndex | apps/scenebuilder/SceneBuilderKit/src/com/oracle/javafx/scenebuilder/kit/editor/EditorController.java:1277 | select(grid, axis, index) gives the grid group of exactly that grid, axis and single index |
| Selections.Selection.ToggleSelection | apps/scenebuilder/SceneBuilderKit/src/com/oracle/javafx/scenebuilder/kit/editor/EditorController.java:1279 | on the same grid and axis, an absent index is added and a present one removed (the last one empties the selection); otherwise a new single-index grid group starts |
| Selections.Selection.Clear | apps/scenebuilder/SceneBuilderKit/src/com/oracle/javafx/scenebuilder/kit/editor/EditorController.java:1360 | clear() empties the selection |
| Jobs.JobFor | apps/scenebuilder/SceneBuilderKit/src/com/oracle/javafx/scenebuilder/kit/editor/EditorController.java:864-1036 | an edit action builds no job exactly when it is TOGGLE_FX_ROOT or one of the four span actions, which fall to the default case |
| Jobs.JobForInjective | apps/scenebuilder/SceneBuilderKit/src/com/oracle/javafx/scenebuilder/kit/editor/EditorController.java:864-1033 | distinct edit actions build distinct jobs, none of them an insert job |
| Jobs.History.Push | apps/scenebuilder/SceneBuilderKit/src/com/oracle/javafx/scenebuilder/kit/editor/EditorController.java:687 | after push the job is the most recent done job, the earlier ones are kept, and nothing can be redone |
| Jobs.History.Undo | apps/scenebuilder/SceneBuilderKit/src/com/oracle/javafx/scenebuilder/kit/editor/EditorController.java:639-641 | with a done job, undo moves exactly the most recent one onto the redo stack and changes nothing else; the order in which the jobs were done is kept |
| Jobs.History.Redo | apps/scenebuilder/SceneBuilderKit/src/com/oracle/javafx/scenebuilder/kit/editor/EditorController.java:666-668 | with an undone job, redo moves exactly the most recently undone one back onto the done jobs and changes nothing else; the order in which the jobs were done is kept |
| Jobs.History.Clear | apps/scenebuilder/SceneBuilderKit/src/com/oracle/javafx/scenebuilder/kit/editor/EditorController.java:674-676 | after clear nothing can be undone or redone |
| Jobs.UndoRedoRoundTrip | apps/scenebuilder/SceneBuilderKit/src/com/oracle/javafx/scenebuilder/kit/editor/EditorController.java:623-668 | undo then redo, and redo then undo, restore the history |
| Jobs.PushDiscardsRedo | apps/scenebuilder/SceneBuilderKit/src/com/oracle/javafx/scenebuilder/kit/editor/EditorController.java:687 | pushing discards every redoable job: undoing the pushed job leaves only it to redo |
| Editor.AnyUnselected | apps/scenebuilder/SceneBuilderKit/src/com/oracle/javafx/scenebuilder/kit/editor/EditorController.java:1312-1316 | the loop over sub-components answers true iff some sub-component is not selected |
| Editor.CanPerformCopy | apps/scenebuilder/SceneBuilderKit/src/com/oracle/javafx/scenebuilder/kit/editor/EditorController.java:1236-1238 | COPY is executable iff the selection is an object group, that is iff some object is selected |
| Editor.CanPerformSelectParent | apps/scenebuilder/SceneBuilderKit/src/com/oracle/javafx/scenebuilder/kit/editor/EditorController.java:1349-1353 | SELECT_PARENT is executable iff the selection has a common ancestor (non-empty, root not selected) |
| Editor.CanPerformSelectNone | apps/scenebuilder/SceneBuilderKit/src/com/oracle/javafx/scenebuilder/kit/editor/EditorController.java:1368-1370 | SELECT_NONE is executable iff clearing the selection would change it |
| Editor.CanPerformSelectAll | apps/scenebuilder/SceneBuilderKit/src/com/oracle/javafx/scenebuilder/kit/editor/EditorController.java:1295-1329 | SELECT_ALL is executable for an empty selection and for a grid group, never when the root is selected, and otherwise iff the common ancestor (which exists) accepts sub-components and one of them is unselected |
| Editor.CanPerformControlAction | apps/scenebuilder/SceneBuilderKit/src/com/oracle/javafx/scenebuilder/kit/editor/EditorController.java:1076-1106 | no control action is executable without a document with a root; the unimplemented ones never are; COPY iff object group; SELECT_NONE iff non-empty; SELECT_PARENT iff non-empty and root unselected; SELECT_ALL as CanPerformSelectAll |
| Editor.CanPerformEditAction | apps/scenebuilder/SceneBuilderKit/src/com/oracle/javafx/scenebuilder/kit/editor/EditorController.java:864-1040 | an edit action is executable iff it builds a job and that job is executable; the actions without a case never are |
| Editor.ParentOfSelection | apps/scenebuilder/SceneBuilderKit/src/com/oracle/javafx/scenebuilder/kit/editor/EditorController.java:1336-1338 | when SELECT_PARENT is executable, the common ancestor exists and is an object of the document |
| Editor.SelectAllResult | apps/scenebuilder/SceneBuilderKit/src/com/oracle/javafx/scenebuilder/kit/editor/EditorController.java:1244-1286 | the selection after SELECT_ALL is a non-empty, well-formed group; a grid group keeps its grid and axis; an object group selects only sub-components of the former common ancestor |
| Editor.InsertTarget | apps/scenebuilder/SceneBuilderKit/src/com/oracle/javafx/scenebuilder/kit/editor/EditorController.java:1158-1165 | there is an insert target iff a document with a root is loaded; it is the root when the selection is empty or holds the root, and otherwise the common ancestor of the selection; it is an object of the document |
| Editor.CanPerformInsert | apps/scenebuilder/SceneBuilderKit/src/com/oracle/javafx/scenebuilder/kit/editor/EditorController.java:1148-1184 | INSERT is false without a document root or when instantiation fails; otherwise it is the insert job's executability on the target |
| Editor.InsertStaysEnabled | apps/scenebuilder/SceneBuilderKit/src/com/oracle/javafx/scenebuilder/kit/editor/EditorController.java:1158-1181 | after an insert the state stays consistent, the new object's parent (the former target) is the new insert target, and INSERT of the same library item is executable again |
| Editor.InsertTargetIsCommonAncestor | apps/scenebuilder/SceneBuilderKit/src/com/oracle/javafx/scenebuilder/kit/editor/EditorController.java:1158-1165 | the target is the root for an empty selection or one holding the root, the grid pane for a grid group, and the nearest common strict ancestor for an object group without the root |
| Editor.InsertSelectsNewObject | apps/scenebuilder/SceneBuilderKit/src/com/oracle/javafx/scenebuilder/kit/editor/EditorController.java:1132-1138 | after the insert the document is valid, the new object is the target's last sub-component, and selecting it is consistent, with the target as its parent for SELECT_PARENT |
| Editor.SelectAllKeepsConsistency | apps/scenebuilder/SceneBuilderKit/src/com/oracle/javafx/scenebuilder/kit/editor/EditorController.java:1244-1286 | the selection after SELECT_ALL is non-empty, well formed and refers to the document |
| Editor.SelectAllGridSelectsWholeAxis | apps/scenebuilder/SceneBuilderKit/src/com/oracle/javafx/scenebuilder/kit/editor/EditorController.java:1258-1280 | SELECT_ALL on a grid group gives a grid group on the same grid and axis with exactly the indices 0 to n-1, n the axis size |
| Editor.SelectAllObjectsThenDisabled | apps/scenebuilder/SceneBuilderKit/src/com/oracle/javafx/scenebuilder/kit/editor/EditorController.java:1250-1257 | SELECT_ALL on an object group selects exactly the sub-components of the common ancestor; that ancestor is unchanged; SELECT_ALL is then disabled |
| Editor.SelectAllEmptySelectsRoot | apps/scenebuilder/SceneBuilderKit/src/com/oracle/javafx/scenebuilder/kit/editor/EditorController.java:1247-1249 | SELECT_ALL on an empty selection selects exactly the root, after which SELECT_ALL and SELECT_PARENT are disabled |
| Editor.SelectAllGridIdempotent | apps/scenebuilder/SceneBuilderKit/src/com/oracle/javafx/scenebuilder/kit/editor/EditorController.java:1319-1323 | on a grid group SELECT_ALL stays enabled and applying it again changes nothing |
| Editor.SelectParentMovesUp | apps/scenebuilder/SceneBuilderKit/src/com/oracle/javafx/scenebuilder/kit/editor/EditorController.java:1335-1340 | SELECT_PARENT on an object group selects a common strict ancestor that lies above every formerly selected object, the deepest such |
| Editor.SelectParentAgain | apps/scenebuilder/SceneBuilderKit/src/com/oracle/javafx/scenebuilder/kit/editor/EditorController.java:1349-1353 | after SELECT_PARENT the selection is consistent, and SELECT_PARENT is enabled again iff the root was not reached |
| Editor.SelectNoneEnabledIffEffective | apps/scenebuilder/SceneBuilderKit/src/com/oracle/javafx/scenebuilder/kit/editor/EditorController.java:1358-1370 | SELECT_NONE is executable iff it would change the selection; afterwards it is disabled, and SELECT_ALL is enabled when a root exists |
| Editor.EditorController.constructor | apps/scenebuilder/SceneBuilderKit/src/com/oracle/javafx/scenebuilder/kit/editor/EditorController.java:187-212 | a new editor has no document, an empty selection, an empty history and no text session |
| Editor.EditorController.CanUndo | apps/scenebuilder/SceneBuilderKit/src/com/oracle/javafx/scenebuilder/kit/editor/EditorController.java:623-625 | true iff some job is done |
| Editor.EditorController.CanRedo | apps/scenebuilder/SceneBuilderKit/src/com/oracle/javafx/scenebuilder/kit/editor/EditorController.java:650-652 | true iff some job is undone |
| Editor.EditorController.ClearUndoRedo | apps/scenebuilder/SceneBuilderKit/src/com/oracle/javafx/scenebuilder/kit/editor/EditorController.java:674-676 | afterwards nothing can be undone or redone |
| Editor.EditorController.TextEditingSessionDidBegin | apps/scenebuilder/SceneBuilderKit/src/com/oracle/javafx/scenebuilder/kit/editor/EditorController.java:287-290 | requires no session on going; afterwards one is |
| Editor.EditorController.TextEditingSessionDidEnd | apps/scenebuilder/SceneBuilderKit/src/com/oracle/javafx/scenebuilder/kit/editor/EditorController.java:296-299 | requires a session on going; afterwards none is |
| Editor.EditorController.IsTextEditingSessionOnGoing | apps/scenebuilder/SceneBuilderKit/src/com/oracle/javafx/scenebuilder/kit/editor/EditorController.java:304-306 | true iff a session is on going, that is iff its end-request callback is set |
| Editor.EditorController.CanGetFxmlText | apps/scenebuilder/SceneBuilderKit/src/com/oracle/javafx/scenebuilder/kit/editor/EditorController.java:261-283 | true iff no session was on going or the callback ended it, following the callback protocol at lines 280-283; no session remains exactly when the answer is true |
| Editor.EditorController.UpdateFxomDocument | apps/scenebuilder/SceneBuilderKit/src/com/oracle/javafx/scenebuilder/kit/editor/EditorController.java:1469-1482 | loading clears the history and the selection; null text leaves no document; a parse failure changes nothing |
| Editor.EditorController.PerformEditAction | apps/scenebuilder/SceneBuilderKit/src/com/oracle/javafx/scenebuilder/kit/editor/EditorController.java:683-856 | pushes exactly the job that CanPerformEditAction probes; an action without a case is unsupported and leaves the history alone |
| Editor.EditorController.PerformCopy | apps/scenebuilder/SceneBuilderKit/src/com/oracle/javafx/scenebuilder/kit/editor/EditorController.java:1221-1229 | the objects handed to the clipboard encoder are exactly the selected objects, and there is at least one |
| Editor.EditorController.PerformSelectAll | apps/scenebuilder/SceneBuilderKit/src/com/oracle/javafx/scenebuilder/kit/editor/EditorController.java:1244-1286 | the new selection is SelectAllResult of the old one (the grid case built by select(0) and toggling 1..n-1), and the invariant is kept |
| Editor.EditorController.PerformSelectParent | apps/scenebuilder/SceneBuilderKit/src/com/oracle/javafx/scenebuilder/kit/editor/EditorController.java:1335-1340 | afterwards exactly the former common ancestor is selected, and the invariant is kept |
| Editor.EditorController.PerformSelectNone | apps/scenebuilder/SceneBuilderKit/src/com/oracle/javafx/scenebuilder/kit/editor/EditorController.java:1358-1361 | afterwards the selection is empty |
| Editor.EditorController.PerformControlAction | apps/scenebuilder/SceneBuilderKit/src/com/oracle/javafx/scenebuilder/kit/editor/EditorController.java:1047-1068 | dispatches the four implemented actions; SELECT_ALL, SELECT_PARENT and SELECT_NONE change the selection as their own methods state, while COPY changes nothing, its copied objects going nowhere because the clipboard is not modelled; the others are unsupported and leave the selection alone |
| Editor.EditorController.PerformInsert | apps/scenebuilder/SceneBuilderKit/src/com/oracle/javafx/scenebuilder/kit/editor/EditorController.java:1115-1139 | the new object, with the given fresh identity and the item's mask, is inserted under the insert target by a pushed insert job, and afterwards exactly the new object is selected |

## Left out

- Editor.EditorController.PerformEditAction: records the job in the history only. It pushes without a check, as `performEditAction` does; whether the job manager's `push` demands an executable job is not known here. Neither the job manager nor the job classes are part of this model, so what the job's body does to the document and the selection is not modelled.
- The controller's `undo()` and `redo()` (EditorController.java:639-669): replaying a job against the document needs the job bodies. Only the history's cursor move is modelled (`Jobs.History.Undo`, `Jobs.History.Redo`).
- The clipboard write and the encoding done by `ClipboardEncoder` (line 1228): a system call and a library. The order of `getSortedItems` is not modelled.
- FXML parsing at line 1473 and serialisation in `getFxmlText` (line 249): external parser and serialiser code. The parser is the `parse` parameter of `UpdateFxomDocument`.
- The FXML location and resource bundle passed to the parser, and the setters that lead to `updateFxomDocument`: they only feed the parser. The same goes for clearing the message log and resetting the error report (lines 1479-1480).
- JavaFX property and listener plumbing: theme, style sheets, resources, library and glossary properties, the class-loader listener (lines 338-344, 1484-1504) and the revision listener that refreshes the error report (lines 218-223, 1506-1508). This is observer wiring, as is the job manager's revision counter.
- The library's class-loader assertion in `canPerformInsert` (lines 1155-1156): it concerns class loaders, which are not modelled.
- Editor.InsertJobExecutable: the insert job's executability is taken to be that the target's mask accepts sub-components. Type compatibility between the object and the target is not modelled.
- Library items: each instantiation yields one new object. The model keeps only its mask (`Fxom.ObjectMask`), and `Instantiate` gives it an identity. `PerformInsert` takes that identity as the parameter `newId` and requires it not to be in the document, which stands for the allocation of a new object. Whether instantiation succeeds is the same on every call. `canPerformInsert` (line 1171) and `performInsert` (line 1128) each call `instantiate()`, and the assertion at line 1129 holds only under this assumption. The subtree a library item may bring, and `moveToFxomDocument`, are not modelled.
- Editor.EditorController.CanGetFxmlText: a callback that ends the session but answers false is not modelled. The assertion at line 271 allows it, but the protocol at lines 280-283 rules it out. The parameter `callbackEndsSession` stands for both the ending and the answer.
- Jobs.History.Undo: at a history with nothing to undo it returns the history unchanged, and `Jobs.History.Redo` does the same with nothing to redo. The job manager is not part of this model, and the controller's `undo()` and `redo()` (lines 639-641, 666-668) call it without checking first. The model leaves the history unchanged at such a boundary. What the job manager does there is not shown by the source.
- Editor.EditorController.TextEditingSessionDidBegin: the callback itself is not stored. A flag records that one is set, and `CanGetFxmlText` receives the callback's answer as a parameter. Passing a null callback is not modelled.
- The anchor ("hit") object of an object selection group: the controller does not use it.
- `Selection.isSelected` on a grid group is taken to be false, because the `Selection` class is not part of this model.
- The static caches `getEffectsSupportingAddition` and `getStylesheet` (lines 1380-1401, 1456-1462). The stubs that throw "Not yet implemented" (`performWrap`, `canPerformWrap`, `getIncludedFile`, `getLibraryItemsSupportingInsertion`, `getLibraryItemsSupportingWrapping`, `performAddEffect`). The placeholder `canPerformAddEffect`, which always answers false.
