/**
 * The editor controller: which control and edit actions are executable in
 * the current state, what the selection actions, the insert action and the
 * loading of a new document do to that state, and the begin/end protocol of
 * a text editing session.
 */
module Editor {
  import opened Wrappers
  import opened Fxom
  import opened Selections
  import opened Jobs

  /** The actions that change only the editor's state, never the document. */
  datatype ControlAction =
    | Copy | SelectAll | SelectNone | SelectParent | SelectNext | SelectPrevious
    | ToggleCssSelection | SelectNextRow | SelectNextColumn

  /** The control actions the controller can perform. */
  predicate Implemented(action: ControlAction) {
    action in {Copy, SelectAll, SelectNone, SelectParent}
  }

  /**
   * A library item, known by the mask of what instantiating it yields (none
   * on failure). Each instantiation yields a new object; its identity is
   * given to Instantiate.
   */
  datatype LibraryItem = LibraryItem(instance: Option<ObjectMask>)

  /** instantiate(): the new object, identified by id, or none on failure. */
  function Instantiate(item: LibraryItem, id: Node): (r: Option<NewObject>)
    ensures r.Some? <==> item.instance.Some?
    ensures r.Some? ==> r.value.id == id && r.value.mask == item.instance.value
  {
    match item.instance
    case None => None
    case Some(mask) => Some(NewObject(id, mask))
  }

  /**
   * The invariant the controller keeps between its document and its
   * selection: a non-empty selection refers to objects of a loaded document
   * that has a root.
   */
  ghost predicate ValidState(doc: Option<Document>, sel: Selection) {
    && sel.WellFormed()
    && (doc.Some? ==> doc.value.Valid())
    && (!sel.IsEmpty() ==> doc.Some? && doc.value.HasRoot() && sel.ConsistentWith(doc.value.rootTree.value))
  }

  predicate HasRoot(doc: Option<Document>) {
    doc.Some? && doc.value.HasRoot()
  }

  /** COPY works on an object selection group only: some object must be selected. */
  predicate CanPerformCopy(sel: Selection): (r: bool)
    requires sel.WellFormed()
    ensures r <==> exists n :: sel.IsSelected(n)
  {
    match sel.group
    case Some(ObjectGroup(items)) =>
      assert sel.IsSelected(Pick(items));
      true
    case _ => false
  }

  /** The loop of canPerformSelectAll: is some object of the list not selected? */
  function AnyUnselected(objects: seq<Node>, sel: Selection): (r: bool)
    ensures r <==> exists i :: 0 <= i < |objects| && !sel.IsSelected(objects[i])
  {
    if objects == [] then false
    else if !sel.IsSelected(objects[0]) then true
    else
      assert forall i :: 1 <= i < |objects| ==> objects[i] == objects[1..][i - 1];
      AnyUnselected(objects[1..], sel)
  }

  /**
   * SELECT_ALL: always for an empty selection or a grid group; for an
   * object group, never when the root is selected, and otherwise when the
   * common ancestor accepts sub-components and one of them is unselected.
   */
  function CanPerformSelectAll(t: Tree, sel: Selection): (r: bool)
    requires t.Valid() && sel.WellFormed() && sel.ConsistentWith(t)
    ensures sel.IsEmpty() ==> r
    ensures sel.group.Some? && sel.group.value.GridGroup? ==> r
    ensures sel.IsSelected(t.root) ==> !r
    ensures CanPerformCopy(sel) && !sel.IsSelected(t.root) ==>
              sel.GetAncestor(t).Some? &&
              (r <==> t.AcceptsSubComponents(sel.GetAncestor(t).value) &&
                      exists i :: 0 <= i < |t.subComponents[sel.GetAncestor(t).value]| &&
                                  !sel.IsSelected(t.subComponents[sel.GetAncestor(t).value][i]))
  {
    match sel.group
    case None => true
    case Some(ObjectGroup(_)) =>
      if sel.IsSelected(t.root) then false
      else
        AncestorIsNearestCommon(t, sel);
        var ancestor := sel.GetAncestor(t).value;
        t.AcceptsSubComponents(ancestor) && AnyUnselected(t.subComponents[ancestor], sel)
    case Some(GridGroup(_, _, _)) => true
  }

  /**
   * SELECT_PARENT: the selection is not empty and the root is not selected,
   * which is exactly when the selection has a common ancestor to select.
   */
  predicate CanPerformSelectParent(t: Tree, sel: Selection): (r: bool)
    requires t.Valid() && sel.WellFormed() && sel.ConsistentWith(t)
    ensures r <==> sel.GetAncestor(t).Some?
  {
    !sel.IsEmpty() && !sel.IsSelected(t.root)
  }

  /** SELECT_NONE: the selection is not empty, so clearing it changes it. */
  predicate CanPerformSelectNone(sel: Selection): (r: bool)
    ensures r <==> sel.Clear() != sel
  {
    !sel.IsEmpty()
  }

  /**
   * Whether a control action is executable: never without a document
   * with a root, never for the actions the controller does not implement.
   */
  function CanPerformControlAction(doc: Option<Document>, sel: Selection, action: ControlAction): (r: bool)
    requires ValidState(doc, sel)
    ensures !HasRoot(doc) ==> !r
    ensures !Implemented(action) ==> !r
    ensures action == Copy ==> (r <==> sel.group.Some? && sel.group.value.ObjectGroup?)
    ensures action == SelectNone ==> (r <==> !sel.IsEmpty())
    ensures action == SelectParent ==>
              (r <==> HasRoot(doc) && !sel.IsEmpty() && !sel.IsSelected(doc.value.rootTree.value.root))
    ensures action == SelectAll ==>
              (r <==> HasRoot(doc) && CanPerformSelectAll(doc.value.rootTree.value, sel))
  {
    if !HasRoot(doc) then false
    else
      var t := doc.value.rootTree.value;
      match action
      case Copy => CanPerformCopy(sel)
      case SelectAll => CanPerformSelectAll(t, sel)
      case SelectNone => CanPerformSelectNone(sel)
      case SelectParent => CanPerformSelectParent(t, sel)
      case _ => false
  }

  /** Whether an edit action is executable: its job says so; no job, no action. */
  function CanPerformEditAction(action: EditAction, isExecutable: Job -> bool): (r: bool)
    ensures Unsupported(action) ==> !r
    ensures r <==> JobFor(action).Some? && isExecutable(JobFor(action).value)
  {
    match JobFor(action)
    case None => false
    case Some(job) => isExecutable(job)
  }

  /** The set {0, ..., n - 1}. */
  function AllIndices(n: nat): (s: set<nat>)
    ensures forall i: nat :: i in s <==> i < n
  {
    if n == 0 then {} else AllIndices(n - 1) + {n - 1}
  }

  function Max(a: nat, b: nat): nat {
    if a < b then b else a
  }

  /**
   * The selection after SELECT_ALL: the root for an empty selection, the
   * sub-components of the common ancestor for an object group, and for a
   * grid group the indices 0 up to the size of its axis (index 0 is
   * selected even when that size is 0).
   */
  function SelectAllResult(t: Tree, sel: Selection): (r: Selection)
    requires t.Valid() && sel.WellFormed() && sel.ConsistentWith(t) && CanPerformSelectAll(t, sel)
    ensures r.WellFormed() && !r.IsEmpty()
    ensures sel.group.Some? && sel.group.value.GridGroup? ==>
              r.group.Some? && r.group.value.GridGroup? &&
              r.group.value.grid == sel.group.value.grid && r.group.value.axis == sel.group.value.axis
    ensures sel.group.Some? && sel.group.value.ObjectGroup? ==>
              forall n :: r.IsSelected(n) ==> n in t.subComponents[sel.GetAncestor(t).value]
  {
    match sel.group
    case None => sel.Select(t.root)
    case Some(ObjectGroup(_)) =>
      AncestorIsNearestCommon(t, sel);
      sel.SelectObjects(t.subComponents[sel.GetAncestor(t).value])
    case Some(GridGroup(grid, axis, _)) =>
      Selection(Some(GridGroup(grid, axis, AllIndices(Max(1, AxisSize(t.gridSizes[grid], axis))))))
  }

  /**
   * The object SELECT_PARENT selects: the common ancestor, which exists
   * whenever SELECT_PARENT is executable.
   */
  function ParentOfSelection(t: Tree, sel: Selection): (a: Node)
    requires t.Valid() && sel.WellFormed() && sel.ConsistentWith(t) && CanPerformSelectParent(t, sel)
    ensures t.Contains(a) && sel.GetAncestor(t) == Some(a)
  {
    if sel.group.value.ObjectGroup? then
      AncestorIsNearestCommon(t, sel);
      sel.GetAncestor(t).value
    else sel.group.value.grid
  }

  /**
   * The object performInsert inserts under: the root when the selection is
   * empty or holds the root, otherwise the common ancestor of the selection.
   */
  function InsertTarget(doc: Option<Document>, sel: Selection): (r: Option<Node>)
    requires ValidState(doc, sel)
    ensures r.Some? <==> HasRoot(doc)
    ensures r.Some? ==> doc.value.rootTree.value.Contains(r.value)
    ensures r.Some? && (sel.IsEmpty() || sel.IsSelected(doc.value.rootTree.value.root)) ==>
              r.value == doc.value.rootTree.value.root
    ensures r.Some? && !sel.IsEmpty() && !sel.IsSelected(doc.value.rootTree.value.root) ==>
              r == sel.GetAncestor(doc.value.rootTree.value)
  {
    if !HasRoot(doc) then None
    else
      var t := doc.value.rootTree.value;
      if sel.IsEmpty() || sel.IsSelected(t.root) then Some(t.root)
      else Some(ParentOfSelection(t, sel))
  }

  /**
   * The insert-as-sub-component job of a new object is executable
   * (structural condition): the target accepts sub-components.
   */
  predicate InsertJobExecutable(t: Tree, target: Node) {
    t.AcceptsSubComponents(target)
  }

  /**
   * INSERT: there is a target, the library instantiates the item, and the
   * insert job built from them is executable.
   */
  function CanPerformInsert(doc: Option<Document>, sel: Selection, item: LibraryItem): (r: bool)
    requires ValidState(doc, sel)
    ensures !HasRoot(doc) ==> !r
    ensures item.instance.None? ==> !r
    ensures r <==> HasRoot(doc) && item.instance.Some? &&
                   InsertJobExecutable(doc.value.rootTree.value, InsertTarget(doc, sel).value)
  {
    var target := InsertTarget(doc, sel);
    if target.None? then false
    else if item.instance.None? then false
    else InsertJobExecutable(doc.value.rootTree.value, target.value)
  }

  /**
   * After SELECT_ALL the selection is non-empty, well formed and still
   * refers to objects of the document.
   */
  lemma SelectAllKeepsConsistency(t: Tree, sel: Selection)
    requires t.Valid() && sel.WellFormed() && sel.ConsistentWith(t) && CanPerformSelectAll(t, sel)
    ensures var r := SelectAllResult(t, sel);
            r.WellFormed() && r.ConsistentWith(t) && !r.IsEmpty()
  {
    var r := SelectAllResult(t, sel);
    match sel.group
    case None =>
    case Some(ObjectGroup(_)) =>
      AncestorIsNearestCommon(t, sel);
      var a := sel.GetAncestor(t).value;
      assert t.subComponents[a] != [];
      var subs := t.subComponents[a];
      forall n | n in r.group.value.items ensures t.Contains(n) {
        var i :| 0 <= i < |subs| && subs[i] == n;
      }
    case Some(GridGroup(grid, axis, indices)) =>
      var i :| i in indices;
      assert 0 in r.group.value.indices;
  }

  /**
   * SELECT_ALL on a grid group selects every row (or every column) of the
   * grid pane, exactly.
   */
  lemma SelectAllGridSelectsWholeAxis(t: Tree, sel: Selection)
    requires t.Valid() && sel.WellFormed() && sel.ConsistentWith(t)
    requires sel.group.Some? && sel.group.value.GridGroup?
    ensures var g := sel.group.value;
            var r := SelectAllResult(t, sel);
            r.group.Some? && r.group.value.GridGroup? &&
            r.group.value.grid == g.grid && r.group.value.axis == g.axis &&
            forall i: nat :: i in r.group.value.indices <==> i < AxisSize(t.gridSizes[g.grid], g.axis)
  {
    var i :| i in sel.group.value.indices;
  }

  /**
   * SELECT_ALL on an object group selects every sub-component of the common
   * ancestor; that ancestor stays the common ancestor, and SELECT_ALL is then
   * no longer executable.
   */
  lemma SelectAllObjectsThenDisabled(t: Tree, sel: Selection)
    requires t.Valid() && sel.WellFormed() && sel.ConsistentWith(t) && CanPerformSelectAll(t, sel)
    requires sel.group.Some? && sel.group.value.ObjectGroup?
    ensures var r := SelectAllResult(t, sel);
            && r.ConsistentWith(t)
            && r.GetAncestor(t) == sel.GetAncestor(t)
            && (forall n :: r.IsSelected(n) <==> n in t.subComponents[sel.GetAncestor(t).value])
            && !CanPerformSelectAll(t, r)
  {
    AncestorIsNearestCommon(t, sel);
    var a := sel.GetAncestor(t).value;
    SubComponentsAncestor(t, a);
    var r := SelectAllResult(t, sel);
    SelectAllKeepsConsistency(t, sel);
    assert t.root !in t.parent;
    assert !r.IsSelected(t.root);
    assert !AnyUnselected(t.subComponents[a], r);
  }

  /**
   * SELECT_ALL on an empty selection selects the root alone; then neither
   * SELECT_ALL nor SELECT_PARENT is executable.
   */
  lemma SelectAllEmptySelectsRoot(t: Tree, sel: Selection)
    requires t.Valid() && sel.IsEmpty()
    ensures var r := SelectAllResult(t, sel);
            (forall n :: r.IsSelected(n) <==> n == t.root) &&
            r.ConsistentWith(t) && !CanPerformSelectAll(t, r) && !CanPerformSelectParent(t, r)
  {
  }

  /** SELECT_ALL on a grid group is idempotent. */
  lemma SelectAllGridIdempotent(t: Tree, sel: Selection)
    requires t.Valid() && sel.WellFormed() && sel.ConsistentWith(t)
    requires sel.group.Some? && sel.group.value.GridGroup?
    ensures SelectAllResult(t, sel).ConsistentWith(t) && CanPerformSelectAll(t, SelectAllResult(t, sel))
    ensures SelectAllResult(t, SelectAllResult(t, sel)) == SelectAllResult(t, sel)
  {
    SelectAllKeepsConsistency(t, sel);
  }

  /**
   * SELECT_PARENT on an object group moves the selection strictly up: the
   * selected ancestor is above every formerly selected object, and it is the
   * nearest such object.
   */
  lemma SelectParentMovesUp(t: Tree, sel: Selection)
    requires t.Valid() && sel.WellFormed() && sel.ConsistentWith(t) && CanPerformSelectParent(t, sel)
    requires sel.group.value.ObjectGroup?
    ensures var a := ParentOfSelection(t, sel);
            && IsCommonAncestor(t, sel.group.value.items, a)
            && (forall n | n in sel.group.value.items :: t.depth[a] < t.depth[n])
            && (forall b :: IsCommonAncestor(t, sel.group.value.items, b) ==> t.depth[b] <= t.depth[a])
  {
    AncestorIsNearestCommon(t, sel);
    var a := ParentOfSelection(t, sel);
    forall n | n in sel.group.value.items ensures t.depth[a] < t.depth[n] {
      var c := t.Ancestors(n);
      var i :| 0 <= i < |c| && c[i] == a;
    }
    forall b | IsCommonAncestor(t, sel.group.value.items, b) ensures t.depth[b] <= t.depth[a] {
      if b != a {
        var c := t.Ancestors(a);
        var i :| 0 <= i < |c| && c[i] == b;
      }
    }
  }

  /** After SELECT_PARENT, SELECT_PARENT is executable again iff the root was not reached. */
  lemma SelectParentAgain(t: Tree, sel: Selection)
    requires t.Valid() && sel.WellFormed() && sel.ConsistentWith(t) && CanPerformSelectParent(t, sel)
    ensures var a := ParentOfSelection(t, sel);
            var r := Selection(None).Select(a);
            r.ConsistentWith(t) && (CanPerformSelectParent(t, r) <==> a != t.root)
  {
  }

  /** SELECT_NONE is executable exactly when performing it would change the selection. */
  lemma SelectNoneEnabledIffEffective(doc: Option<Document>, sel: Selection)
    requires ValidState(doc, sel)
    ensures CanPerformControlAction(doc, sel, SelectNone) <==> sel != sel.Clear()
    ensures ValidState(doc, sel.Clear()) && !CanPerformControlAction(doc, sel.Clear(), SelectNone)
    ensures HasRoot(doc) ==> CanPerformControlAction(doc, sel.Clear(), SelectAll)
  {
  }

  /**
   * The insert target is the root for an empty selection or one holding
   * the root, the nearest common strict ancestor of an object group
   * without the root, and the grid pane of a grid group.
   */
  lemma InsertTargetIsCommonAncestor(doc: Option<Document>, sel: Selection)
    requires ValidState(doc, sel) && HasRoot(doc)
    ensures var t := doc.value.rootTree.value;
            var target := InsertTarget(doc, sel).value;
            && (sel.IsEmpty() ==> target == t.root)
            && (sel.group.Some? && sel.group.value.GridGroup? ==> target == sel.group.value.grid)
            && (sel.group.Some? && sel.group.value.ObjectGroup? && t.root !in sel.group.value.items ==>
                  IsCommonAncestor(t, sel.group.value.items, target) &&
                  forall b :: IsCommonAncestor(t, sel.group.value.items, b) ==> b == target || b in t.Ancestors(target))
            && (sel.IsSelected(t.root) ==> target == t.root)
  {
    var t := doc.value.rootTree.value;
    if sel.group.Some? && sel.group.value.ObjectGroup? {
      AncestorIsNearestCommon(t, sel);
    }
  }

  /**
   * After an insert, the new object is the last sub-component of the target,
   * the document stays valid, the selection (the new object alone) refers to
   * it, and SELECT_PARENT would select the target.
   */
  lemma InsertSelectsNewObject(t: Tree, obj: NewObject, target: Node)
    requires t.Valid() && InsertJobExecutable(t, target) && !t.Contains(obj.id)
    ensures var t' := InsertAsSubComponent(t, obj, target);
            var sel := Selection(None).Select(obj.id);
            && t'.Valid() && t'.Contains(obj.id) && t'.Contains(target)
            && t'.subComponents[target][|t'.subComponents[target]| - 1] == obj.id
            && sel.ConsistentWith(t')
            && CanPerformSelectParent(t', sel)
            && ParentOfSelection(t', sel) == target
  {
    var t' := InsertAsSubComponent(t, obj, target);
    var sel := Selection(None).Select(obj.id);
    assert obj.id != t.root;
    assert t'.Ancestors(obj.id)[0] == target;
    AncestorIsNearestCommon(t', sel);
  }

  /**
   * INSERT stays executable after an insert: the new object alone is
   * selected, its parent (the former target) is the new target, and that
   * target still accepts sub-components.
   */
  lemma InsertStaysEnabled(doc: Option<Document>, sel: Selection, item: LibraryItem, id: Node)
    requires ValidState(doc, sel) && CanPerformInsert(doc, sel, item)
    requires !doc.value.rootTree.value.Contains(id)
    ensures var t := doc.value.rootTree.value;
            var target := InsertTarget(doc, sel).value;
            var doc' := Some(Document(Some(InsertAsSubComponent(t, Instantiate(item, id).value, target))));
            var sel' := Selection(None).Select(id);
            && ValidState(doc', sel')
            && InsertTarget(doc', sel') == Some(target)
            && CanPerformInsert(doc', sel', item)
  {
    var t := doc.value.rootTree.value;
    var target := InsertTarget(doc, sel).value;
    InsertSelectsNewObject(t, Instantiate(item, id).value, target);
  }

  class EditorController {
    /** The document being edited (none when the editor is empty). */
    var fxomDocument: Option<Document>
    var selection: Selection
    /** The job manager's undo/redo history. */
    var jobManager: History
    /** A text editing session is on going (its end-request callback is set). */
    var textEditingSessionOnGoing: bool

    ghost predicate Valid()
      reads this
    {
      ValidState(fxomDocument, selection)
    }

    /** An empty editor: no document, nothing selected, no history. */
    constructor ()
      ensures Valid()
      ensures fxomDocument.None? && selection.IsEmpty()
      ensures !jobManager.CanUndo() && !jobManager.CanRedo()
      ensures !textEditingSessionOnGoing
    {
      fxomDocument := None;
      selection := Selection(None);
      jobManager := History([], []);
      textEditingSessionOnGoing := false;
    }

    function RootTree(): Tree
      reads this
      requires HasRoot(fxomDocument)
    {
      fxomDocument.value.rootTree.value
    }

    function CanUndo(): (r: bool)
      reads this
      ensures r <==> jobManager.done != []
    {
      jobManager.CanUndo()
    }

    function CanRedo(): (r: bool)
      reads this
      ensures r <==> jobManager.undone != []
    {
      jobManager.CanRedo()
    }

    /** Forgets the undo/redo history. */
    method ClearUndoRedo()
      modifies this`jobManager
      ensures !CanUndo() && !CanRedo()
    {
      jobManager := jobManager.Clear();
    }

    /** A session begins when none is on going. */
    method TextEditingSessionDidBegin()
      requires !textEditingSessionOnGoing
      modifies this`textEditingSessionOnGoing
      ensures textEditingSessionOnGoing
    {
      textEditingSessionOnGoing := true;
    }

    /** A session ends when one is on going. */
    method TextEditingSessionDidEnd()
      requires textEditingSessionOnGoing
      modifies this`textEditingSessionOnGoing
      ensures !textEditingSessionOnGoing
    {
      textEditingSessionOnGoing := false;
    }

    /** A session is on going while its end-request callback is set. */
    predicate IsTextEditingSessionOnGoing(): (r: bool)
      reads this
      ensures r <==> textEditingSessionOnGoing
    {
      textEditingSessionOnGoing
    }

    /**
     * canGetFxmlText: true with no session on going; otherwise the session's
     * end-request callback is asked, and it either ends the session (through
     * TextEditingSessionDidEnd) and answers true, or keeps it and answers
     * false. callbackEndsSession is what the callback decides.
     */
    method CanGetFxmlText(callbackEndsSession: bool) returns (r: bool)
      modifies this`textEditingSessionOnGoing
      ensures r <==> !textEditingSessionOnGoing
      ensures r <==> !old(textEditingSessionOnGoing) || callbackEndsSession
    {
      if !textEditingSessionOnGoing {
        r := true;
      } else {
        if callbackEndsSession {
          TextEditingSessionDidEnd();
        }
        r := callbackEndsSession;
      }
    }

    /**
     * Loads new FXML text (none empties the editor); parse stands for the
     * FXML loader, none meaning that it throws. A loaded document forgets
     * the history and the selection; a failing parse changes nothing.
     */
    method UpdateFxomDocument(fxmlText: Option<string>, parse: string -> Option<Document>) returns (ok: bool)
      requires Valid()
      requires forall s :: parse(s).Some? ==> parse(s).value.Valid()
      modifies this`fxomDocument, this`selection, this`jobManager
      ensures Valid()
      ensures ok <==> fxmlText.None? || parse(fxmlText.value).Some?
      ensures ok ==> fxomDocument == (if fxmlText.None? then None else parse(fxmlText.value))
      ensures ok ==> selection.IsEmpty() && !CanUndo() && !CanRedo()
      ensures !ok ==> fxomDocument == old(fxomDocument) && selection == old(selection) && jobManager == old(jobManager)
    {
      var newFxomDocument: Option<Document>;
      if fxmlText.Some? {
        newFxomDocument := parse(fxmlText.value);
        if newFxomDocument.None? {
          return false;
        }
      } else {
        newFxomDocument := None;
      }
      jobManager := jobManager.Clear();
      selection := selection.Clear();
      fxomDocument := newFxomDocument;
      ok := true;
    }

    /**
     * Performs an edit action: pushes the job it builds; an action without
     * a job is unsupported.
     */
    method PerformEditAction(action: EditAction) returns (supported: bool)
      modifies this`jobManager
      ensures supported <==> !Unsupported(action)
      ensures supported ==> jobManager == old(jobManager).Push(JobFor(action).value)
      ensures !supported ==> jobManager == old(jobManager)
    {
      match JobFor(action)
      case None =>
        supported := false;
      case Some(job) =>
        jobManager := jobManager.Push(job);
        supported := true;
    }

    /** COPY: the objects of the object group go to the clipboard encoder. */
    method PerformCopy() returns (copied: set<Node>)
      requires Valid() && CanPerformCopy(selection)
      ensures copied != {}
      ensures forall n :: n in copied <==> selection.IsSelected(n)
    {
      copied := selection.group.value.items;
    }

    /** SELECT_ALL; see SelectAllResult. */
    method PerformSelectAll()
      requires Valid() && HasRoot(fxomDocument)
      requires CanPerformSelectAll(RootTree(), selection)
      modifies this`selection
      ensures Valid()
      ensures selection == SelectAllResult(RootTree(), old(selection))
    {
      var t := RootTree();
      ghost var sel0 := selection;
      if selection.IsEmpty() {
        selection := selection.Select(t.root);
      } else if selection.group.value.ObjectGroup? {
        AncestorIsNearestCommon(t, selection);
        var ancestor := selection.GetAncestor(t).value;
        selection := selection.SelectObjects(t.subComponents[ancestor]);
      } else {
        var grid, axis := selection.group.value.grid, selection.group.value.axis;
        var size := AxisSize(t.gridSizes[grid], axis);
        selection := selection.SelectIndex(grid, axis, 0);
        assert AllIndices(1) == {0};
        var index := 1;
        while index < size
          invariant 1 <= index <= Max(1, size)
          invariant selection == Selection(Some(GridGroup(grid, axis, AllIndices(index))))
        {
          assert index !in AllIndices(index);
          assert AllIndices(index) + {index} == AllIndices(index + 1);
          selection := selection.ToggleSelection(grid, axis, index);
          index := index + 1;
        }
      }
      SelectAllKeepsConsistency(t, sel0);
    }

    /** SELECT_PARENT: the common ancestor alone becomes the selection. */
    method PerformSelectParent()
      requires Valid() && HasRoot(fxomDocument)
      requires CanPerformSelectParent(RootTree(), selection)
      modifies this`selection
      ensures Valid()
      ensures forall n :: selection.IsSelected(n) <==> n == ParentOfSelection(RootTree(), old(selection))
      ensures selection == Selection(None).Select(ParentOfSelection(RootTree(), old(selection)))
    {
      var ancestor := ParentOfSelection(RootTree(), selection);
      selection := selection.Select(ancestor);
    }

    /** SELECT_NONE: the selection becomes empty. */
    method PerformSelectNone()
      requires Valid() && CanPerformSelectNone(selection)
      modifies this`selection
      ensures Valid() && selection.IsEmpty()
    {
      selection := selection.Clear();
    }

    /**
     * Performs a control action; the actions the controller does not
     * implement are unsupported and change nothing.
     */
    method PerformControlAction(action: ControlAction) returns (supported: bool)
      requires Valid()
      requires Implemented(action) ==> CanPerformControlAction(fxomDocument, selection, action)
      modifies this`selection
      ensures Valid()
      ensures supported <==> Implemented(action)
      ensures action == SelectAll ==> selection == SelectAllResult(RootTree(), old(selection))
      ensures action == SelectParent ==> selection == Selection(None).Select(ParentOfSelection(RootTree(), old(selection)))
      ensures action == SelectNone ==> selection.IsEmpty()
      ensures action != SelectAll && action != SelectParent && action != SelectNone ==> selection == old(selection)
    {
      supported := Implemented(action);
      match action
      case Copy =>
        var _ := PerformCopy();
      case SelectAll =>
        PerformSelectAll();
      case SelectNone =>
        PerformSelectNone();
      case SelectParent =>
        PerformSelectParent();
      case _ =>
    }

    /**
     * INSERT: the library's new object is appended to the sub-components of
     * the insert target by a pushed insert job, and becomes the selection.
     */
    method PerformInsert(item: LibraryItem, newId: Node)
      requires Valid() && CanPerformInsert(fxomDocument, selection, item)
      requires !RootTree().Contains(newId)
      modifies this`fxomDocument, this`selection, this`jobManager
      ensures Valid()
      ensures var target := old(InsertTarget(fxomDocument, selection)).value;
              && fxomDocument == Some(Document(Some(InsertAsSubComponent(old(RootTree()), Instantiate(item, newId).value, target))))
              && jobManager == old(jobManager).Push(InsertAsSubComponentJob(newId, target))
      ensures forall n :: selection.IsSelected(n) <==> n == newId
    {
      var t := RootTree();
      var target: Node;
      if selection.IsEmpty() || selection.IsSelected(t.root) {
        target := t.root;
      } else {
        target := ParentOfSelection(t, selection);
      }
      var newObject := Instantiate(item, newId).value;
      InsertSelectsNewObject(t, newObject, target);
      jobManager := jobManager.Push(InsertAsSubComponentJob(newObject.id, target));
      fxomDocument := Some(Document(Some(InsertAsSubComponent(t, newObject, target))));
      selection := selection.Select(newObject.id);
    }
  }
}
