/** Every event the editor reacts to, one transition each, and the facts
    that hold across all of them. */
module Events {
  import opened Document
  import opened Editor
  import CanvasStage
  import AppPage
  import Keyboard

  datatype Event =
    | PointerDown(target: CanvasStage.Target, ctrl: bool, meta: bool, at: Point)
    | PointerMove(to: Point)
    | PointerUp
    | ResizeDrag(width: int, height: int)
    | ResizeRelease
    | ImportDoc(doc: Snapshot)
    | AddTextClicked(newId: Id)
    | AddImageClicked(newId: Id, url: string)
    | DeleteClicked
    | DeleteConfirmed
    | DeleteCancelled
    /** The toolbar's undo or redo; `restored` is the snapshot the history
        store moves to. */
    | HistoryButton(restored: Snapshot)
    | KeyPressed(key: Keyboard.KeyEvent, canUndo: bool, canRedo: bool, genId: nat -> Id, restored: Snapshot)

  function Step(s: State, ev: Event): State {
    match ev
    case PointerDown(t, ctrl, meta, p) => CanvasStage.MouseDown(s, t, ctrl, meta, p)
    case PointerMove(p) => CanvasStage.MouseMove(s, p)
    case PointerUp => CanvasStage.MouseUp(s)
    case ResizeDrag(w, h) => CanvasStage.Resize(s, w, h)
    case ResizeRelease => CanvasStage.ResizeEnd(s)
    case ImportDoc(d) => AppPage.Import(s, d)
    case AddTextClicked(id) => AppPage.AddText(s, id)
    case AddImageClicked(id, url) => AppPage.AddImage(s, id, url)
    case DeleteClicked => AppPage.RequestDelete(s)
    case DeleteConfirmed => AppPage.ConfirmDelete(s)
    case DeleteCancelled => AppPage.CancelDelete(s)
    case HistoryButton(restored) => Restore(s, restored)
    case KeyPressed(k, canUndo, canRedo, genId, restored) =>
      Keyboard.HandleKey(s, k, canUndo, canRedo, genId, restored)
  }

  /** The events in order. */
  function Run(s: State, evs: seq<Event>): State
    decreases |evs|
  {
    if |evs| == 0 then s else Run(Step(s, evs[0]), evs[1..])
  }

  /** No event puts an id into the selection twice. */
  lemma StepKeepsSelectionDistinct(s: State, ev: Event)
    requires NoDup(s.selection)
    ensures NoDup(Step(s, ev).selection)
  {
    match ev
    case PointerDown(t, ctrl, meta, p) =>
      if t.OnElement? && t.id in Ids(s.doc) && (ctrl || meta) {
        if t.id in s.selection {
          WithoutNoDup(s.selection, t.id);
        } else {
          NoDupAppend(s.selection, t.id);
        }
      }
    case _ =>
  }

  /** The toolbar's undo or redo button, or an undo or redo shortcut the
      history store allows: the events after which the store's value is a
      snapshot other than the last one it was handed. */
  predicate MovesHistory(ev: Event) {
    || ev.HistoryButton?
    || (ev.KeyPressed? && Keyboard.MovesHistory(ev.key, ev.canUndo, ev.canRedo))
  }

  /** Apart from undo and redo, the history store's current snapshot is
      always the last one it was handed: every other event leaves both
      alone, pushes one snapshot, or (import) restarts the store. */
  lemma StepKeepsHistoryInSync(s: State, ev: Event)
    requires HistoryInSync(s)
    requires !MovesHistory(ev)
    ensures HistoryInSync(Step(s, ev))
  {
  }

  /** Undo and redo move the store's value to the snapshot it presents,
      without logging anything, so the value need not be the last snapshot
      logged any more. */
  lemma UndoRedoRestores(s: State, ev: Event)
    requires MovesHistory(ev)
    ensures Step(s, ev).committed == ev.restored
    ensures Step(s, ev).history == s.history
    ensures Step(s, ev).selection == s.selection && Step(s, ev).primary == s.primary
    ensures ev.restored != s.committed && |ev.restored| > 0 ==> Step(s, ev).doc == ev.restored
  {
  }

  /** After a commit, an undo back to the previous value leaves the store's
      value different from the last snapshot logged. */
  lemma UndoLeavesLogBehind(genId: nat -> Id)
    ensures var s := Run(Initial, [AddTextClicked("a")]);
            var ev := KeyPressed(Keyboard.KeyEvent("z", true, false, false, false), true, false, genId, []);
            HistoryInSync(s) && !HistoryInSync(Step(s, ev))
  {
  }

  /** One checkpoint per discrete action: apart from an import, which
      restarts the store, an event adds at most one snapshot to the history
      and never rewrites what is there; pointer-moves, resize drags, undo and
      redo add none. */
  lemma StepCheckpoints(s: State, ev: Event)
    requires !ev.ImportDoc?
    ensures var r := Step(s, ev);
            && s.history <= r.history
            && |r.history| <= |s.history| + 1
            && (ev.PointerMove? || ev.ResizeDrag? || ev.PointerDown? || MovesHistory(ev) ==> r.history == s.history)
  {
  }

  /** The selection stays free of duplicates after any sequence of events. */
  lemma {:induction false} RunKeepsSelectionDistinct(s: State, evs: seq<Event>)
    requires NoDup(s.selection)
    ensures NoDup(Run(s, evs).selection)
    decreases |evs|
  {
    if |evs| > 0 {
      StepKeepsSelectionDistinct(s, evs[0]);
      RunKeepsSelectionDistinct(Step(s, evs[0]), evs[1..]);
    }
  }

  /** The store stays in step with its log after any sequence of events that
      contains no undo or redo. */
  lemma {:induction false} RunKeepsHistoryInSync(s: State, evs: seq<Event>)
    requires HistoryInSync(s)
    requires forall i :: 0 <= i < |evs| ==> !MovesHistory(evs[i])
    ensures HistoryInSync(Run(s, evs))
    decreases |evs|
  {
    if |evs| > 0 {
      StepKeepsHistoryInSync(s, evs[0]);
      assert forall i :: 0 <= i < |evs[1..]| ==> evs[1..][i] == evs[i + 1];
      RunKeepsHistoryInSync(Step(s, evs[0]), evs[1..]);
    }
  }

  /** The transitions with the two corrections: the toggle keeps the primary
      a member of the selection, and a confirmed delete commits the surface
      after removal. */
  function StepIntended(s: State, ev: Event): State {
    match ev
    case PointerDown(t, ctrl, meta, p) => CanvasStage.MouseDownIntended(s, t, ctrl, meta, p)
    case DeleteConfirmed => AppPage.ConfirmDeleteIntended(s)
    case _ => Step(s, ev)
  }

  /** With the corrections, every event keeps the primary element a member
      of the selection, present exactly when something is selected. */
  lemma StepIntendedKeepsPrimaryConsistent(s: State, ev: Event)
    requires PrimaryConsistent(s)
    ensures PrimaryConsistent(StepIntended(s, ev))
  {
    match ev
    case KeyPressed(k, canUndo, canRedo, genId, _) =>
      var a := Keyboard.Dispatch(k, |s.selection| > 0, canUndo, canRedo);
      if a == Keyboard.PasteClipboard {
        assert StepIntended(s, ev) == AppPage.Paste(s, genId);
      }
    case _ =>
  }

  /** The corrected transitions differ from the code only on the two events
      the corrections concern. */
  lemma StepIntendedDiffersOnlyThere(s: State, ev: Event)
    requires !ev.DeleteConfirmed?
    requires PrimaryConsistent(s)
    requires ev.PointerDown? ==> !CanvasStage.StrandsPrimary(s, ev.target, ev.ctrl, ev.meta)
    ensures StepIntended(s, ev) == Step(s, ev)
  {
  }

  /** Import a paragraph, add a text element (placed at (50, 50)), click it
      and drag it 30 pixels right: after the release the committed snapshot
      holds the text element at left 80, top 50, and the paragraph as
      imported. */
  lemma ImportAddDragExample()
    ensures var p := Element("a", Text, None, None, None, None, false, "Hi");
            var r := Run(Initial, [ImportDoc([p]), AddTextClicked("t"),
                                   PointerDown(CanvasStage.OnElement("t"), false, false, Point(0, 0)),
                                   PointerMove(Point(30, 0)), PointerUp]);
            && |r.committed| == 2
            && r.committed[0] == p
            && r.committed[1].id == "t"
            && r.committed[1].left == Some(80) && r.committed[1].top == Some(50)
            && r.committed == r.doc
            && |r.history| == 3
  {
    var p := Element("a", Text, None, None, None, None, false, "Hi");
    var t := Element("t", Text, Some(50), Some(50), None, None, true, "New Text");
    var s1 := Step(Initial, ImportDoc([p]));
    assert s1.doc == [p] && s1.committed == [p] && s1.history == [[p]];
    var s2 := Step(s1, AddTextClicked("t"));
    assert s2.committed == [p, t] && s2.doc == [p, t];
    var s3 := Step(s2, PointerDown(CanvasStage.OnElement("t"), false, false, Point(0, 0)));
    assert Find([p, t], "t") == Some(t) by {
      assert [p, t][1..] == [t];
    }
    assert s3.doc == [p, t] && s3.selection == ["t"] && s3.primary == Some("t");
    assert s3.drag == Drag(true, Point(0, 0), Point(50, 50));
    var s4 := Step(s3, PointerMove(Point(30, 0)));
    var t' := t.(left := Some(80), top := Some(50));
    assert s4.doc == [p, t'];
    var s5 := Step(s4, PointerUp);
    assert s5.committed == [p, t'] && s5.doc == [p, t'];
    var evs := [ImportDoc([p]), AddTextClicked("t"),
                PointerDown(CanvasStage.OnElement("t"), false, false, Point(0, 0)),
                PointerMove(Point(30, 0)), PointerUp];
    assert Run(Initial, evs) == Run(s1, evs[1..]);
    assert Run(s1, evs[1..]) == Run(s2, evs[2..]) by { assert evs[1..][1..] == evs[2..]; }
    assert Run(s2, evs[2..]) == Run(s3, evs[3..]) by { assert evs[2..][1..] == evs[3..]; }
    assert Run(s3, evs[3..]) == Run(s4, evs[4..]) by { assert evs[3..][1..] == evs[4..]; }
    assert Run(s4, evs[4..]) == Run(s5, []) by { assert evs[4..][1..] == []; }
  }
}
