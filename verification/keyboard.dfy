/** The page's global keyboard shortcuts.

    `Dispatch` decides which command a key press asks for, trying the checks
    in the page's order; `HandleKey` carries out the commands. Undo and redo
    are requests to the history store, which is not part of this model: the
    snapshot the store moves to is a parameter, and the editor takes it up
    with `Restore`.

    Only a content-editable target suppresses the shortcuts; a key typed in
    an ordinary form field is dispatched like any other.
 */
module Keyboard {
  import opened Document
  import opened Editor
  import AppPage

  datatype KeyEvent = KeyEvent(key: string, ctrl: bool, meta: bool, shift: bool, contentEditable: bool)

  datatype Action = NoAction | CopySelection | PasteClipboard | OpenDeleteDialog | Undo | Redo

  predicate Command(ev: KeyEvent) {
    ev.ctrl || ev.meta
  }

  predicate IsDeleteKey(key: string) {
    key == "Delete" || key == "Backspace"
  }

  /** The key press asks the history store to move: an undo or a redo that
      the store allows. */
  predicate MovesHistory(ev: KeyEvent, canUndo: bool, canRedo: bool) {
    && !ev.contentEditable
    && Command(ev)
    && ((ev.key == "z" && !ev.shift && canUndo)
        || (((ev.key == "z" && ev.shift) || ev.key == "y") && canRedo))
  }

  /** The shortcut dispatcher. Its contract states each action's trigger as a
      condition of its own: the ordered checks never let one shortcut shadow
      another. */
  function Dispatch(ev: KeyEvent, hasSelection: bool, canUndo: bool, canRedo: bool): (a: Action)
    ensures ev.contentEditable ==> a == NoAction
    ensures a == CopySelection <==> !ev.contentEditable && Command(ev) && ev.key == "c"
    ensures a == PasteClipboard <==> !ev.contentEditable && Command(ev) && ev.key == "v"
    ensures a == OpenDeleteDialog <==> !ev.contentEditable && IsDeleteKey(ev.key) && hasSelection
    ensures a == Undo <==> !ev.contentEditable && Command(ev) && ev.key == "z" && !ev.shift && canUndo
    ensures a == Redo <==>
      && !ev.contentEditable
      && Command(ev)
      && ((ev.key == "z" && ev.shift) || ev.key == "y")
      && canRedo
  {
    if ev.contentEditable then NoAction
    else if Command(ev) && ev.key == "c" then CopySelection
    else if Command(ev) && ev.key == "v" then PasteClipboard
    else if IsDeleteKey(ev.key) && hasSelection then OpenDeleteDialog
    else if Command(ev) && ev.key == "z" then
      if ev.shift then (if canRedo then Redo else NoAction)
      else (if canUndo then Undo else NoAction)
    else if Command(ev) && ev.key == "y" then (if canRedo then Redo else NoAction)
    else NoAction
  }

  /** A key press applied to the editor; `genId` supplies the identifiers a
      paste generates, and `restored` is the snapshot the history store
      presents after an undo or redo. */
  function HandleKey(s: State, ev: KeyEvent, canUndo: bool, canRedo: bool, genId: nat -> Id, restored: Snapshot): (r: State)
    ensures ev.contentEditable ==> r == s
    ensures !ev.contentEditable && Command(ev) && ev.key == "c" ==> r == AppPage.Copy(s)
    ensures !ev.contentEditable && Command(ev) && ev.key == "v" ==> r == AppPage.Paste(s, genId)
    ensures MovesHistory(ev, canUndo, canRedo) ==> r == Restore(s, restored)
    ensures Dispatch(ev, |s.selection| > 0, canUndo, canRedo) == NoAction ==> r == s
  {
    match Dispatch(ev, |s.selection| > 0, canUndo, canRedo)
    case CopySelection => AppPage.Copy(s)
    case PasteClipboard => AppPage.Paste(s, genId)
    case OpenDeleteDialog => s.(deleteDialog := true)
    case Undo => Restore(s, restored)
    case Redo => Restore(s, restored)
    case NoAction => s
  }

  /** Delete and Backspace outside an editable field do what the toolbar's
      delete button does: open the dialog exactly when something is
      selected. */
  lemma DeleteKeyMatchesButton(s: State, ev: KeyEvent, canUndo: bool, canRedo: bool, genId: nat -> Id, restored: Snapshot)
    requires !ev.contentEditable && IsDeleteKey(ev.key)
    ensures HandleKey(s, ev, canUndo, canRedo, genId, restored) == AppPage.RequestDelete(s)
  {
  }

  /** The z shortcut with Shift asks for redo only, whatever the undo
      capability, and never both undo and redo. */
  lemma ShiftZIsRedo(ev: KeyEvent, hasSelection: bool, canUndo: bool, canRedo: bool)
    requires !ev.contentEditable && Command(ev) && ev.key == "z" && ev.shift
    ensures Dispatch(ev, hasSelection, canUndo, canRedo) == (if canRedo then Redo else NoAction)
  {
  }
}
