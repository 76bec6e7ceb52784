# Visual HTML editor: interaction model

This project models the interaction core of a browser-based visual HTML
editor in Dafny. The core has two parts. The stage component turns pointer
input into selection, drag and resize gestures on a live rendering surface.
The page component owns the undo history, the selection, the clipboard and
the delete-confirmation dialog, and dispatches keyboard shortcuts.

The browser, the DOM and React are gone. What is left is one immutable
state value (`Editor.State`) and one pure transition function per event.

- The stage's direct children are `Document.Element` records. Each record
  holds an id, a kind (image, text or other), CSS offsets and size as
  optional integers, a positioning flag (set when the element has an
  inline, non-static position), and content.
- `doc` is the live surface. Gestures change it in place.
- `committed` is the history store's current snapshot: the page's
  `htmlContent`, mirrored in `stageContentRef`.
- `history` logs every snapshot handed to the store since its last reset.
- The selection is a sequence of ids in click order. The primary
  selection is an optional id.
- The drag state is `dragging`, the pointer anchor `start` and
  `elementStart`.
- The clipboard is a sequence of fragments. A fragment is the markup of
  an element, or markup that does not parse.

Serialisation is modelled as the identity on records, so a snapshot is the
element sequence it renders back to. `Editor.Commit` stands for handing a
snapshot to the history store. After a commit the stage re-renders from
the store's value only when that value changed and is non-empty, because
the stage's render effect depends on the string value and skips empty
content.

Modules follow the source:

- `Document`: records, lookup and the per-element updates.
- `Editor`: the shared state, `Commit` and `Restore` (undo or redo).
- `CanvasStage`: `components/CanvasStage.tsx`.
- `AppPage` and `Keyboard`: `app/app/page.tsx`.
- `Events`: one `Step` over every event, plus the facts that hold across
  all events.

The model follows the code as written. In two places the code falls short
of the invariants it evidently intends (see "## Findings"). For each of
these, a corrected definition sits beside the as-written one, with the
intended property proved. `Events.StepIntended` is the event step with
both corrections.

## Model

| member | source | states |
|---|---|---|
| `Editor.Commit` | components/CanvasStage.tsx:24-27 | The snapshot becomes the store's current value and is appended to the log. The surface is replaced by it exactly when it differs from the previous value and is non-empty. Nothing else changes. |
| `Editor.Restore` | app/app/page.tsx:19 | Undo or redo moves the store's value to the snapshot it presents. Nothing is logged. The surface re-renders by the same rule as after a commit, and selection, primary, drag, clipboard and dialog are kept. |
| `Editor.CommitStage` | components/CanvasStage.tsx:139-174 | Committing the surface itself leaves the surface unchanged. Afterwards the store's value equals the surface and is the last snapshot logged. |
| `CanvasStage.BackgroundDown` | components/CanvasStage.tsx:52-58 | A background click without Ctrl/Meta empties the selection and clears the primary. With a modifier it changes nothing. It never touches the drag or the surface. |
| `CanvasStage.ToggleDown` | components/CanvasStage.tsx:76-91 | Ctrl/Meta on a selected id filters that id out. The primary becomes the sole remaining id if one remains, becomes null if none remain, and is left as it was if two or more remain. Ctrl/Meta on an unselected id appends it and makes it primary. Nothing else changes. |
| `CanvasStage.PlainDown` | components/CanvasStage.tsx:93-110 | Selection becomes exactly `[e]` and the primary becomes `e`. A drag starts with the pointer as anchor and `e`'s offsets (unset read as 0) as element start. A non-absolute element is promoted in place: flag set, offsets still the same numbers, nothing else changed. Other elements are untouched. |
| `CanvasStage.MouseDown` | components/CanvasStage.tsx:49-112 | Pointer-down never touches the history or the clipboard. A modifier or background click never starts a drag or changes the surface. A plain click on a stage element always starts a drag with that element as the whole selection. A click on an unknown id changes nothing. |
| `CanvasStage.ToggleOffRemovesOnlyIt` | components/CanvasStage.tsx:77-80 | With distinct entries, a modifier-click on the k-th selected id gives exactly `sel[..k] + sel[k+1..]`. |
| `CanvasStage.ToggleCanStrandPrimary` | components/CanvasStage.tsx:81-85 | Concrete case: selection `[a,b,c]` with primary `c`. After a Ctrl-click on `c` the selection is `[a,b]` and the primary is still `c`, so the selection invariant breaks. |
| `CanvasStage.MouseDownKeepsPrimaryUnlessStranded` | components/CanvasStage.tsx:52-95 | If the primary is consistent with the selection before a pointer-down, it stays consistent after it. The one exception is a modifier-click that removes the primary itself while leaving two or more elements selected. |
| `CanvasStage.IntendedPrimaryAfterRemoval` | components/CanvasStage.tsx:81-85 | Corrected rule: the primary is null exactly when nothing remains. Otherwise it is a remaining id: the old primary if it is still selected. |
| `CanvasStage.ToggleDownIntended` | components/CanvasStage.tsx:76-91 | The corrected toggle selects the same ids as the code's toggle and always yields a primary consistent with the selection. |
| `CanvasStage.IntendedToggleAgrees` | components/CanvasStage.tsx:81-85 | From a state whose primary is consistent with the selection, and outside the stranding case, the corrected toggle gives exactly the code's result. |
| `CanvasStage.MouseDownIntended` | components/CanvasStage.tsx:49-112 | Pointer-down with the corrected toggle keeps the primary consistent. From a consistent state and outside the stranding case, it equals the code's pointer-down. |
| `CanvasStage.MouseMove` | components/CanvasStage.tsx:114-137 | A move while not dragging is a no-op. With more than one element selected, the anchor moves to the pointer and unselected elements are unchanged. With at most one selected, the anchor stays put. The primary's elements are placed at element start + (pointer − anchor), or nothing changes when there is no primary (a background click during a drag clears it). Nothing else changes. |
| `CanvasStage.MultiMoveShiftsSelected` | components/CanvasStage.tsx:120-129 | With distinct selected ids, one move shifts each selected element by exactly the per-frame delta (current offset, unset read as 0). |
| `CanvasStage.Moves` | components/CanvasStage.tsx:114-137 | Intermediate frames of a drag never reach the history store. They never change the selection, the primary, the dragging flag or the element start. They keep element order and ids. |
| `CanvasStage.SingleDragFollowsLastPointer` | components/CanvasStage.tsx:130-136 | With one element selected, after any non-empty run of moves the element is at element start + (last pointer − anchor). The drag state is unchanged and nothing else moves. |
| `CanvasStage.MultiDragTelescopes` | components/CanvasStage.tsx:120-129 | With several elements selected, the per-frame deltas telescope. Each selected element ends displaced by (last pointer − first anchor), the anchor ends at the last pointer, and the others are unchanged. |
| `CanvasStage.SingleDragTwoFrames` | components/CanvasStage.tsx:130-136 | Single-element moves by (dx1,dy1) and then a further (dx2,dy2) leave the element at element start + (dx1+dx2, dy1+dy2). |
| `CanvasStage.MultiDragTwoFrames` | components/CanvasStage.tsx:120-129 | Multi-element moves by (dx1,dy1) and then (dx2,dy2) displace every selected element by (dx1+dx2, dy1+dy2). |
| `CanvasStage.MouseUp` | components/CanvasStage.tsx:139-144 | Pointer-up always ends the drag. It commits the surface exactly once if a drag was active, and otherwise leaves the history alone. |
| `CanvasStage.DragGesture` | components/CanvasStage.tsx:93-144 | With unique ids, a plain click, any moves and a release leave the clicked element absolutely positioned and displaced by (last pointer − first pointer). Every other element is unchanged. The history gains exactly one snapshot, the final surface. |
| `CanvasStage.Resize` | components/CanvasStage.tsx:158-168 | A resize does nothing unless the primary exists and is an image. Otherwise it sets exactly that element's width and height, and nothing else changes. |
| `CanvasStage.ResizeEnd` | components/CanvasStage.tsx:170-174 | Resize completion commits the surface once and changes nothing else. |
| `CanvasStage.HandlesDriveResize` | components/CanvasStage.tsx:200 | When the handles show (single selection, primary image), the resize they drive takes effect on the primary. With no primary image, a resize is ignored. |
| `AppPage.Import` | app/app/page.tsx:25-29 | The history restarts at the imported snapshot, which becomes current. Selection and primary are cleared. Clipboard, drag and dialog are kept. The surface shows the import unless it is empty or equal to the previous value. |
| `AppPage.Append` | app/app/page.tsx:35-47 | Appending builds on the store's snapshot: the new snapshot is the old one plus the element. It is committed, and the stage shows it. |
| `AppPage.AddText` | app/app/page.tsx:35-40 | Exactly one element is appended to an unchanged prefix: absolutely positioned text "New Text" with the generated id at (50,50). |
| `AppPage.AddImage` | app/app/page.tsx:42-47 | Exactly one element is appended to an unchanged prefix: an absolutely positioned image of the given url, with the generated id, at (100,100), sized 200×200. |
| `AppPage.AddKeepsIdsUnique` | app/app/page.tsx:36-44 | If the generated id is not already in use, adding text or an image keeps the snapshot's ids unique. |
| `AppPage.RequestDelete` | app/app/page.tsx:49-53 | The dialog opens exactly when the selection is non-empty. Nothing else changes. |
| `AppPage.CancelDelete` | app/app/page.tsx:173 | Cancelling closes the dialog and changes nothing else. |
| `AppPage.ConfirmDelete` | app/app/page.tsx:55-64 | Confirming with an empty selection changes nothing. Otherwise the surface keeps exactly the unselected elements, in document order (`Document.RemoveIds`), and selection, primary and dialog are cleared. The store's value stays the previous one, and that same value is pushed again. |
| `AppPage.ConfirmDeleteCount` | app/app/page.tsx:56-57 | With unique ids and every selected id on the stage, confirming removes exactly as many elements as were selected. |
| `AppPage.ConfirmDeleteLeavesSnapshotStale` | app/app/page.tsx:61-62 | A deleted element that was in the store's snapshot stays in the snapshot but is gone from the surface. The store and the surface then disagree. |
| `AppPage.ConfirmDeleteExample` | app/app/page.tsx:55-64 | Concrete case: surface and store `[a,b]`, selection `[a]`. After confirming, the surface is `[b]` and the store still holds `[a,b]`, pushed a second time. |
| `AppPage.DeletedElementReturnsOnAdd` | app/app/page.tsx:35-40 | After a confirmed delete, the next "add text" builds on the stale snapshot and brings the deleted element back onto the surface. |
| `AppPage.ConfirmDeleteIntended` | app/app/page.tsx:55-64 | Corrected confirm: same removal and clearing as the code. The store receives the post-removal surface, so no deleted id remains in the committed snapshot. |
| `AppPage.ConfirmDeleteVariantsAgreeOnStage` | app/app/page.tsx:57-60 | The corrected and as-written confirmations leave the same surface, selection and primary. |
| `AppPage.Copy` | app/app/page.tsx:71-76 | With an empty selection nothing changes. Otherwise the clipboard is replaced wholesale, one entry per selected id in selection order. Each id on the stage becomes that element's markup. Nothing else changes. |
| `AppPage.Relocated` | app/app/page.tsx:85-89 | A pasted copy takes the generated id and has offsets of the original (unset read as 0) plus 20. Everything else is as copied. |
| `AppPage.Paste` | app/app/page.tsx:78-97 | With an empty clipboard nothing changes. Otherwise the pasted copies are appended to an unchanged prefix (the store's snapshot) and committed, and the stage shows the result. When nothing parses, the stage is left as it was. The clipboard is not modified. |
| `AppPage.PastedAppend` | app/app/page.tsx:81-93 | Pasting distributes over the clipboard: each entry contributes its own copies, in clipboard order. |
| `AppPage.PastedSingle` | app/app/page.tsx:81-92 | A parsable entry contributes exactly one relocated copy. An unparsable entry contributes nothing. |
| `AppPage.PastedWellFormed` | app/app/page.tsx:81-93 | When every entry parses, the k-th pasted element is entry k relocated with the k-th generated id. |
| `AppPage.PastedIdsGenerated` | app/app/page.tsx:85 | Every pasted copy carries one of the ids generated for its batch. |
| `AppPage.PastedIdsNotCopied` | app/app/page.tsx:85 | If no generated id equals the id of a copied element, no pasted copy carries the id of any element on the clipboard. |
| `AppPage.PastedIdsUnique` | app/app/page.tsx:81-93 | If the generated ids are pairwise distinct, the pasted copies have pairwise distinct ids. |
| `AppPage.PasteKeepsIdsUnique` | app/app/page.tsx:78-96 | If the generated ids are distinct and unused, paste keeps the snapshot's ids unique. |
| `AppPage.PasteTwice` | app/app/page.tsx:78-96 | Two pastes append two batches from the same, unchanged clipboard. |
| `AppPage.CopyThenPaste` | app/app/page.tsx:71-97 | Copying one selected element and pasting appends one copy. The copy has a different id and is 20 px right of and below the original. The previous snapshot is an untouched prefix, one snapshot is logged, and the stage shows the result. |
| `AppPage.RepeatedPaste` | app/app/page.tsx:78-96 | Two pastes put both batches at original + 20, not at cumulative offsets. The clipboard and the earlier snapshot are unchanged. |
| `Keyboard.Dispatch` | app/app/page.tsx:100-127 | Each action's trigger, stated as its own condition: a content-editable target gives nothing (an ordinary form field does not count as one). Copy is Ctrl/Meta+c and paste is Ctrl/Meta+v. The dialog opens on Delete/Backspace with a selection. Undo is Ctrl/Meta+z without Shift when undo is possible. Redo is Ctrl/Meta+Shift+z or Ctrl/Meta+y when redo is possible. |
| `Keyboard.HandleKey` | app/app/page.tsx:100-127 | A content-editable target changes nothing. Ctrl/Meta+c is exactly copy and Ctrl/Meta+v is exactly paste. An allowed undo or redo takes up the snapshot the store presents (`Editor.Restore`). A key that triggers nothing leaves the state alone. |
| `Keyboard.DeleteKeyMatchesButton` | app/app/page.tsx:113-115 | Delete/Backspace outside a content-editable element does what the toolbar's delete button does. |
| `Keyboard.ShiftZIsRedo` | app/app/page.tsx:116-122 | Ctrl/Meta+Shift+z asks for redo if redo is possible and nothing otherwise, whatever undo would allow. |
| `Events.StepKeepsSelectionDistinct` | components/CanvasStage.tsx:76-94 | No event puts an id into the selection twice. |
| `Events.StepKeepsHistoryInSync` | app/app/page.tsx:19-33 | After every event other than an undo or redo (toolbar button or allowed shortcut), the store's current value is the last snapshot it was handed. |
| `Events.UndoRedoRestores` | app/app/page.tsx:116-125 | An undo or redo makes the presented snapshot current, logs nothing, keeps the selection and shows the snapshot when it changed and is non-empty. |
| `Events.UndoLeavesLogBehind` | app/app/page.tsx:116-122 | Concrete case: after adding text, Ctrl+z back to the empty snapshot leaves the store's value different from the last snapshot logged. |
| `Events.StepCheckpoints` | components/CanvasStage.tsx:114-174 | Apart from an import, each event extends the history by at most one snapshot and never rewrites it. Pointer-down, pointer-move, resize drags, undo and redo add none. |
| `Events.RunKeepsSelectionDistinct` | components/CanvasStage.tsx:76-94 | The selection stays free of duplicates after any sequence of events. |
| `Events.RunKeepsHistoryInSync` | app/app/page.tsx:19-33 | After any sequence of events without undo or redo, the store's value is the last snapshot logged. |
| `Events.StepIntendedKeepsPrimaryConsistent` | components/CanvasStage.tsx:76-91 | With the corrections, every event keeps the primary a member of the selection, present exactly when something is selected. |
| `Events.StepIntendedDiffersOnlyThere` | components/CanvasStage.tsx:81-85 | From a state whose primary is consistent with the selection, the corrected step equals the code's step on every event except a confirmed delete and a primary-stranding toggle. |
| `Events.ImportAddDragExample` | app/app/page.tsx:25-47 | Import a paragraph, add text, click it and drag 30 px right. After the release the committed snapshot holds the paragraph and the text element at left 80, top 50. Three snapshots are logged. |
| `Document.MoveAll` | components/CanvasStage.tsx:121-128 | Moving the selection keeps element order and ids, and leaves every unselected element unchanged. |
| `Document.MoveAllMovesSelectedOnce` | components/CanvasStage.tsx:121-128 | With distinct selection entries, each selected element moves by the delta exactly once. |
| `Document.Without` | components/CanvasStage.tsx:79 | The filtered selection holds exactly the ids other than the removed one. |
| `Document.WithoutSplices` | components/CanvasStage.tsx:79 | With distinct entries, removing the k-th id is `sel[..k] + sel[k+1..]`, so order is kept. |
| `Document.RemoveIds` | app/app/page.tsx:57 | Removal keeps exactly the elements whose ids were not removed. |
| `Document.RemoveIdsAppend` | app/app/page.tsx:57 | Removal distributes over concatenation, so survivors keep document order. |
| `Document.RemoveIdsCount` | app/app/page.tsx:57 | With unique ids, removal takes out one element per removed id that is present. |

## Findings

| source | as written | input that shows it | evidently intended | confidence | as-written member | corrected member |
|---|---|---|---|---|---|---|
| components/CanvasStage.tsx:81-85 | A Ctrl/Meta-toggle that leaves two or more elements selected keeps the old primary, even when the primary was the element removed | selection `[a,b,c]`, primary `c`, Ctrl-click `c`: the selection becomes `[a,b]` and the primary stays `c` | The primary is always a member of the selection, or null when the selection is empty | high; not executed | `CanvasStage.ToggleCanStrandPrimary` | `CanvasStage.ToggleDownIntended` |
| app/app/page.tsx:61-62 | Confirming a delete pushes `stageContentRef.current`, the previous snapshot, not the post-removal markup | surface and store `[a,b]`, selection `[a]`, confirm: the surface is `[b]` and the store still holds `[a,b]`; the next "add text" brings `a` back | Delete emits the updated snapshot, so undo history and stage agree | high; not executed | `AppPage.ConfirmDeleteLeavesSnapshotStale` | `AppPage.ConfirmDeleteIntended` |

Another consequence of the code as written: a plain click collapses the
selection to one element before a drag starts (components/CanvasStage.tsx:93-94).
So a drag begun by a click always runs the single-element branch
(`CanvasStage.MouseDown`, `CanvasStage.DragGesture`). The multi-element
branch of `CanvasStage.MouseMove` runs only if the move handler is given a
selection of two or more. The model states both branches over whatever
selection the move receives.

Shortcuts are suppressed only for a content-editable target
(app/app/page.tsx:103). A key typed in an ordinary form field is dispatched
like any other. Backspace in a properties-panel input while something is
selected therefore opens the delete dialog (`Keyboard.Dispatch`,
`Keyboard.DeleteKeyMatchesButton`). Whether that is intended is not clear
from the code, so the model reproduces it and claims no finding.

## Left out

- DOM and HTML strings are not modelled. Markup, `innerHTML`/`outerHTML`,
  `DOMParser` and serialisation become element records, and serialisation
  is the identity. The id-assignment pass after a render
  (components/CanvasStage.tsx:27) is not modelled. Element records carry
  ids from the start, and lemmas that need distinct ids take them as a
  hypothesis.
- CSS reading is reduced to integers. `getComputedStyle`, `parseInt` of
  CSS lengths and truncation of fractional pixels become optional integer
  offsets, read as 0 when unset. The positioning schemes are reduced to
  one flag, `absolute`. It stands for "has an inline position and a
  non-static computed position", the negation of the promotion test at
  components/CanvasStage.tsx:106. So an element made absolute only by a
  stylesheet rule is still promoted, and one with inline `position:
  relative` is not, as in the code. Inline versus stylesheet position, and
  relative versus absolute, are not otherwise distinguished.
- `elementRect` and `getBoundingClientRect` (components/CanvasStage.tsx:22, 41-47, 167)
  only position the handle overlay, which is rendering.
- The no-op loop at components/CanvasStage.tsx:29-37 has no effect.
- React mechanics are out: state scheduling, callback memoisation, stale
  closures, and the registration and removal of document listeners
  (components/CanvasStage.tsx:146-155, app/app/page.tsx:129-131).
  `preventDefault` and `stopPropagation` are out too.
- Node references are not modelled. The selection holds ids rather than
  node references. Any commit that changes the snapshot re-renders the
  stage (components/CanvasStage.tsx:24-27), and the selected node
  references then point at detached nodes. The code's confirm-delete
  (app/app/page.tsx:57), resize (components/CanvasStage.tsx:161-165) and
  moves (components/CanvasStage.tsx:121-135) then act on those detached
  nodes and change nothing visible. `AppPage.ConfirmDelete`,
  `CanvasStage.Resize` and `CanvasStage.MouseMove` instead act by id on the
  live surface. Per-element updates act on every element carrying the id.
- `CanvasStage.Resize`: when the primary id is not on the stage, the model
  ignores the resize. The code would write the size onto the detached
  node, which has no visible effect.
- `AppPage.Copy`: a selected id that is not on the stage has no
  counterpart in the code, where a selection holds node references. The
  model copies it as a fragment that pastes to nothing.
- Rendering is out: JSX, the status bar, the selection-outline style block
  (components/CanvasStage.tsx:176-263) and the dialog presentation
  (app/app/page.tsx:164-177). The dialog component closing itself on its
  action button is presentation too.
- The history store's internals are not modelled: its past and future
  stacks, `canUndo`/`canRedo` and truncation of the redo branch. `history`
  logs the snapshots handed to it by `set` and `reset`. An undo or redo
  (`Events.HistoryButton`, or an allowed shortcut in `Keyboard.HandleKey`)
  carries the snapshot the store moves to as a parameter, and
  `Editor.Restore` takes it up. That the parameter is an earlier or later
  logged snapshot is not stated.
- `Events.StepKeepsHistoryInSync` and `Events.RunKeepsHistoryInSync`
  promise sync only for events other than undo and redo. After an undo the
  store's value is an earlier snapshot, not the last one logged
  (`Events.UndoLeavesLogBehind`).
- Other collaborators are not part of this model: the resize handles'
  geometry and minimum clamping, the properties panel, the toolbar, and
  the element classification (`isImageElement`, `isTextElement`), which
  is taken as the `Kind` field.
- Id generation is a parameter. Each call to `generateUniqueId` becomes a
  given id: one for add text or add image, and `genId(k)` for the k-th
  clipboard entry of a paste. "Returns an id not in use" is a hypothesis
  of the lemmas that need it.
- Export and download (app/app/page.tsx:66-69) are file I/O.
