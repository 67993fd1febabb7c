/**
 * Edit actions, the job each one builds, and the undo/redo history the
 * job manager keeps. A job's body is not modelled: a job is a token that
 * names what it would do, and whether it is executable in the current
 * state is asked of a probe supplied by the caller.
 */
module Jobs {
  import opened Wrappers
  import opened Fxom

  /** The actions that modify the document. */
  datatype EditAction =
    | Cut | Paste | PasteInto | Duplicate | Delete | Trim | ToggleFxRoot
    | FitToParent | UseComputedSizes
    | MoveRowAbove | MoveRowBelow | MoveColumnBefore | MoveColumnAfter
    | AddRowAbove | AddRowBelow | AddColumnBefore | AddColumnAfter
    | IncreaseRowSpan | DecreaseRowSpan | IncreaseColumnSpan | DecreaseColumnSpan
    | BringToFront | SendToBack | BringForward | SendBackward
    | Unwrap
    | WrapInAnchorPane | WrapInGridPane | WrapInGroup | WrapInHBox | WrapInPane
    | WrapInScrollPane | WrapInSplitPane | WrapInStackPane | WrapInTabPane
    | WrapInTitledPane | WrapInToolBar | WrapInVBox

  /** Where a grid-pane job adds or moves a row or a column. */
  datatype Position = Before | After | Above | Below

  /** The container a wrap job puts the selection in. */
  datatype Container =
    | AnchorPane | GridPane | Group | HBox | Pane | ScrollPane | SplitPane
    | StackPane | TabPane | TitledPane | ToolBar | VBox

  /** The jobs the controller builds. */
  datatype Job =
    | AddColumnJob(columnPosition: Position)
    | AddRowJob(rowPosition: Position)
    | MoveColumnJob(columnPosition: Position)
    | MoveRowJob(rowPosition: Position)
    | BringForwardJob | BringToFrontJob | SendBackwardJob | SendToBackJob
    | CutSelectionJob | DeleteSelectionJob | DuplicateSelectionJob
    | FitToParentSelectionJob | UseComputedSizesSelectionJob | TrimSelectionJob
    | PasteJob | PasteIntoJob
    | UnwrapJob
    | WrapInJob(container: Container)
    | InsertAsSubComponentJob(newObject: Node, target: Node)

  /**
   * The job an edit action builds; none for the actions the controller has
   * no case for.
   */
  function JobFor(action: EditAction): (r: Option<Job>)
    ensures r.None? <==> Unsupported(action)
  {
    match action
    case AddColumnBefore => Some(AddColumnJob(Before))
    case AddColumnAfter => Some(AddColumnJob(After))
    case AddRowAbove => Some(AddRowJob(Above))
    case AddRowBelow => Some(AddRowJob(Below))
    case BringForward => Some(BringForwardJob)
    case BringToFront => Some(BringToFrontJob)
    case Cut => Some(CutSelectionJob)
    case Delete => Some(DeleteSelectionJob)
    case Duplicate => Some(DuplicateSelectionJob)
    case FitToParent => Some(FitToParentSelectionJob)
    case MoveColumnBefore => Some(MoveColumnJob(Before))
    case MoveColumnAfter => Some(MoveColumnJob(After))
    case MoveRowAbove => Some(MoveRowJob(Above))
    case MoveRowBelow => Some(MoveRowJob(Below))
    case Paste => Some(PasteJob)
    case PasteInto => Some(PasteIntoJob)
    case SendBackward => Some(SendBackwardJob)
    case SendToBack => Some(SendToBackJob)
    case Unwrap => Some(UnwrapJob)
    case UseComputedSizes => Some(UseComputedSizesSelectionJob)
    case Trim => Some(TrimSelectionJob)
    case WrapInAnchorPane => Some(WrapInJob(AnchorPane))
    case WrapInGridPane => Some(WrapInJob(GridPane))
    case WrapInGroup => Some(WrapInJob(Group))
    case WrapInHBox => Some(WrapInJob(HBox))
    case WrapInPane => Some(WrapInJob(Pane))
    case WrapInScrollPane => Some(WrapInJob(ScrollPane))
    case WrapInSplitPane => Some(WrapInJob(SplitPane))
    case WrapInStackPane => Some(WrapInJob(StackPane))
    case WrapInTabPane => Some(WrapInJob(TabPane))
    case WrapInTitledPane => Some(WrapInJob(TitledPane))
    case WrapInToolBar => Some(WrapInJob(ToolBar))
    case WrapInVBox => Some(WrapInJob(VBox))
    case _ => None
  }

  /** The edit actions with no case in the controller's dispatch. */
  predicate Unsupported(action: EditAction) {
    action in {ToggleFxRoot, IncreaseRowSpan, DecreaseRowSpan, IncreaseColumnSpan, DecreaseColumnSpan}
  }

  /** Distinct edit actions build distinct jobs, and an insert job is never among them. */
  lemma JobForInjective(a1: EditAction, a2: EditAction)
    requires JobFor(a1).Some? && JobFor(a1) == JobFor(a2)
    ensures a1 == a2 && !JobFor(a1).value.InsertAsSubComponentJob?
  {
  }

  /**
   * The job manager's linear history: done jobs (most recent last) and
   * undone jobs that can be redone (most recently undone last).
   */
  datatype History = History(done: seq<Job>, undone: seq<Job>)
  {
    predicate CanUndo() {
      done != []
    }

    predicate CanRedo() {
      undone != []
    }

    /** push(job): the job is done, and nothing can be redone any more. */
    function Push(job: Job): (h: History)
      ensures h.CanUndo() && !h.CanRedo()
      ensures h.done[|h.done| - 1] == job && h.done[..|h.done| - 1] == done
    {
      History(done + [job], [])
    }

    /**
     * Every job of the history in the order it was first done: the done
     * jobs, then the undone ones from the next to redo onwards.
     */
    function Timeline(): seq<Job> {
      done + Reversed(undone)
    }

    /**
     * undo(): the most recent done job becomes the next one to redo; with
     * nothing to undo the history stays as it is.
     */
    function Undo(): (h: History)
      ensures CanUndo() ==> h.CanRedo() && h.done == done[..|done| - 1] && h.undone == undone + [done[|done| - 1]]
      ensures !CanUndo() ==> h == this
      ensures h.Timeline() == Timeline()
    {
      if CanUndo() then
        var h := History(done[..|done| - 1], undone + [done[|done| - 1]]);
        assert (undone + [done[|done| - 1]])[..|undone|] == undone;
        assert done[..|done| - 1] + [done[|done| - 1]] == done;
        h
      else this
    }

    /**
     * redo(): the most recently undone job is done again; with nothing to
     * redo the history stays as it is.
     */
    function Redo(): (h: History)
      ensures CanRedo() ==> h.CanUndo() && h.done == done + [undone[|undone| - 1]] && h.undone == undone[..|undone| - 1]
      ensures !CanRedo() ==> h == this
      ensures h.Timeline() == Timeline()
    {
      if CanRedo() then History(done + [undone[|undone| - 1]], undone[..|undone| - 1])
      else this
    }

    /** clear(): the history is forgotten. */
    function Clear(): (h: History)
      ensures !h.CanUndo() && !h.CanRedo()
    {
      History([], [])
    }
  }

  /** The elements of s, last first. */
  function Reversed<T>(s: seq<T>): seq<T> {
    if s == [] then [] else [s[|s| - 1]] + Reversed(s[..|s| - 1])
  }

  /** Undo then redo, and redo then undo, leave the history as it was. */
  lemma UndoRedoRoundTrip(h: History)
    ensures h.CanUndo() ==> h.Undo().Redo() == h
    ensures h.CanRedo() ==> h.Redo().Undo() == h
  {
    if h.CanUndo() {
      var u := h.Undo();
      assert u.undone[..|u.undone| - 1] == h.undone;
      assert u.done + [u.undone[|u.undone| - 1]] == h.done;
    }
    if h.CanRedo() {
      var r := h.Redo();
      assert r.done[..|r.done| - 1] == h.done;
      assert r.undone + [r.done[|r.done| - 1]] == h.undone;
    }
  }

  /**
   * Pushing after undoing discards every job that could be redone: undoing
   * the pushed job leaves only it to redo.
   */
  lemma PushDiscardsRedo(h: History, job: Job)
    ensures h.Push(job).Undo() == History(h.done, [job])
  {
  }
}
