/** The state both halves of the editor share.

    The page owns the history store, the selection, the clipboard and the
    delete dialog; the stage owns the live surface and the drag gesture.
    `doc` is the live surface, which gestures change in place; `committed`
    is the history store's current snapshot (the page's `htmlContent`,
    mirrored in `stageContentRef`); `history` logs every snapshot handed to
    the store since its last reset. Serialisation is modelled as the
    identity on element records, so a snapshot is the element sequence it
    would render back to.
 */
module Editor {
  import opened Document

  datatype Point = Point(x: int, y: int)

  /** The stage's gesture state: `start` is the pointer anchor and
      `elementStart` the primary element's offsets when the gesture began. */
  datatype Drag = Drag(dragging: bool, start: Point, elementStart: Point)

  type Snapshot = Doc

  /** One clipboard entry: the markup of a copied element, or markup that
      does not parse back into an element. */
  datatype Fragment = Markup(element: Element) | Malformed

  datatype State = State(
    doc: Doc,
    committed: Snapshot,
    history: seq<Snapshot>,
    selection: seq<Id>,
    primary: Option<Id>,
    drag: Drag,
    clipboard: seq<Fragment>,
    deleteDialog: bool)

  /** The editor as it opens: an empty history store, nothing selected. */
  const Initial: State :=
    State([], [], [[]], [], None, Drag(false, Point(0, 0), Point(0, 0)), [], false)

  /** Hands a snapshot to the history store. The stage re-renders from the
      store's value only when that value changed and is non-empty; otherwise
      the live surface is left as it is. */
  function Commit(s: State, snap: Snapshot): (r: State)
    ensures r.committed == snap
    ensures r.history == s.history + [snap]
    ensures snap != s.committed && |snap| > 0 ==> r.doc == snap
    ensures snap == s.committed || |snap| == 0 ==> r.doc == s.doc
    ensures r.(doc := s.doc, committed := s.committed, history := s.history) == s
  {
    var shown := if snap != s.committed && |snap| > 0 then snap else s.doc;
    s.(doc := shown, committed := snap, history := s.history + [snap])
  }

  /** The history store moves its current value to `snap`, an earlier or
      later snapshot it holds (undo or redo). Nothing is handed to the store,
      so the log is unchanged; the stage re-renders from the new value by the
      same rule as after a commit. */
  function Restore(s: State, snap: Snapshot): (r: State)
    ensures r.committed == snap
    ensures r.history == s.history
    ensures snap != s.committed && |snap| > 0 ==> r.doc == snap
    ensures snap == s.committed || |snap| == 0 ==> r.doc == s.doc
    ensures r.(doc := s.doc, committed := s.committed) == s
  {
    var shown := if snap != s.committed && |snap| > 0 then snap else s.doc;
    s.(doc := shown, committed := snap)
  }

  /** The store's current snapshot is the last one it was handed. */
  ghost predicate HistoryInSync(s: State) {
    |s.history| > 0 && s.committed == s.history[|s.history| - 1]
  }

  /** The selection invariant the design intends: the primary element is a
      member of the selection, and is absent exactly when nothing is selected. */
  predicate PrimaryConsistent(s: State) {
    && (s.primary.None? <==> |s.selection| == 0)
    && (s.primary.Some? ==> s.primary.value in s.selection)
  }

  /** Committing the live surface itself leaves the surface as it is and makes
      the store agree with it. */
  lemma CommitStage(s: State)
    ensures Commit(s, s.doc).doc == s.doc
    ensures Commit(s, s.doc).committed == Commit(s, s.doc).doc
    ensures HistoryInSync(Commit(s, s.doc))
  {
  }
}
