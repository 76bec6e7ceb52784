/** The stage controller: pointer input turned into selection, drag and
    resize transitions over the editor state.

    A pointer-down target is already resolved to the stage background or to
    the direct child of the stage that contains the clicked node. Moves and
    the release are delivered while a drag is active; a move with no active
    drag is a no-op.
 */
module CanvasStage {
  import opened Document
  import opened Editor

  datatype Target = Background | OnElement(id: Id)

  /** Pointer-down on the stage background. */
  function BackgroundDown(s: State, multi: bool): (r: State)
    ensures r.drag == s.drag && r.doc == s.doc
    ensures multi ==> r == s
    ensures !multi ==> r.selection == [] && r.primary.None?
    ensures r.(selection := s.selection, primary := s.primary) == s
  {
    if multi then s else s.(primary := None, selection := [])
  }

  /** The primary after a modifier-click removed an id, as written: only a
      selection left with one or no element updates it. */
  function PrimaryAfterRemoval(rest: seq<Id>, primary: Option<Id>): Option<Id> {
    if |rest| == 1 then Some(rest[0])
    else if |rest| == 0 then None
    else primary
  }

  /** Modifier-click on an element: toggles its membership in the selection.
      It never starts a drag and never changes the surface. */
  function ToggleDown(s: State, id: Id): (r: State)
    ensures r.(selection := s.selection, primary := s.primary) == s
    ensures id in s.selection ==>
      && r.selection == Without(s.selection, id)
      && id !in r.selection
      && (|r.selection| == 0 ==> r.primary.None?)
      && (|r.selection| == 1 ==> r.primary == Some(r.selection[0]))
      && (|r.selection| >= 2 ==> r.primary == s.primary)
    ensures id !in s.selection ==> r.selection == s.selection + [id] && r.primary == Some(id)
  {
    if id in s.selection then
      var rest := Without(s.selection, id);
      s.(selection := rest, primary := PrimaryAfterRemoval(rest, s.primary))
    else
      s.(selection := s.selection + [id], primary := Some(id))
  }

  /** Gives the element absolute positioning at the offsets it is shown at. */
  function Promote(d: Doc, id: Id, x: int, y: int): Doc {
    Update(d, id, (e: Element) => e.(absolute := true, left := Some(x), top := Some(y)))
  }

  /** Plain click on element `e`: it becomes the whole selection and the
      primary, and a drag begins anchored at the pointer with `e`'s offsets
      (unset reads as 0) as the element start. An element that is not yet
      absolutely positioned is promoted at those same offsets. */
  function PlainDown(s: State, e: Element, p: Point): (r: State)
    ensures r.selection == [e.id] && r.primary == Some(e.id)
    ensures r.drag == Drag(true, p, Point(OrZero(e.left), OrZero(e.top)))
    ensures r.(doc := s.doc, selection := s.selection, primary := s.primary, drag := s.drag) == s
    ensures e.absolute ==> r.doc == s.doc
    ensures |r.doc| == |s.doc|
    ensures forall i :: 0 <= i < |s.doc| && s.doc[i].id != e.id ==> r.doc[i] == s.doc[i]
    ensures !e.absolute ==> forall i :: 0 <= i < |s.doc| && s.doc[i].id == e.id ==>
      && r.doc[i].absolute
      && OrZero(r.doc[i].left) == OrZero(e.left)
      && OrZero(r.doc[i].top) == OrZero(e.top)
      && r.doc[i].(absolute := s.doc[i].absolute, left := s.doc[i].left, top := s.doc[i].top) == s.doc[i]
  {
    var x := OrZero(e.left);
    var y := OrZero(e.top);
    var shown := if e.absolute then s.doc else Promote(s.doc, e.id, x, y);
    s.(primary := Some(e.id), selection := [e.id], drag := Drag(true, p, Point(x, y)), doc := shown)
  }

  /** Pointer-down on the stage, with the Ctrl and Meta modifier states. */
  function MouseDown(s: State, t: Target, ctrl: bool, meta: bool, p: Point): (r: State)
    ensures r.history == s.history && r.committed == s.committed
    ensures r.clipboard == s.clipboard && r.deleteDialog == s.deleteDialog
    ensures t.Background? && !ctrl && !meta ==> r.selection == [] && r.primary.None?
    ensures t.Background? ==> r.drag == s.drag && r.doc == s.doc
    ensures t.Background? && (ctrl || meta) ==> r == s
    ensures ctrl || meta ==> r.drag == s.drag && r.doc == s.doc
    ensures t.OnElement? && t.id !in Ids(s.doc) ==> r == s
    ensures t.OnElement? && t.id in Ids(s.doc) && !ctrl && !meta ==>
      r.drag.dragging && r.selection == [t.id] && r.primary == Some(t.id)
    ensures r.drag.dragging ==> s.drag.dragging || (t.OnElement? && !ctrl && !meta)
  {
    match t
    case Background => BackgroundDown(s, ctrl || meta)
    case OnElement(id) =>
      match Find(s.doc, id)
      case None => s
      case Some(e) => if ctrl || meta then ToggleDown(s, id) else PlainDown(s, e, p)
  }

  /** Modifier-click on a selected id removes exactly that id and keeps every
      other selected id in click order. */
  lemma ToggleOffRemovesOnlyIt(s: State, k: int, ctrl: bool, meta: bool, p: Point)
    requires NoDup(s.selection)
    requires 0 <= k < |s.selection|
    requires s.selection[k] in Ids(s.doc)
    requires ctrl || meta
    ensures MouseDown(s, OnElement(s.selection[k]), ctrl, meta, p).selection
            == s.selection[..k] + s.selection[k + 1..]
  {
    WithoutSplices(s.selection, k);
  }

  /** A modifier-click that leaves two or more elements selected keeps the old
      primary even when it was the element just removed: the primary then
      names an element outside the selection. */
  lemma ToggleCanStrandPrimary()
    ensures var e := Element("c", Text, None, None, None, None, false, "");
            var s := Initial.(doc := [e.(id := "a"), e.(id := "b"), e],
                              selection := ["a", "b", "c"], primary := Some("c"));
            var r := MouseDown(s, OnElement("c"), true, false, Point(0, 0));
            && PrimaryConsistent(s)
            && r.selection == ["a", "b"]
            && r.primary == Some("c")
            && !PrimaryConsistent(r)
  {
    var e := Element("c", Text, None, None, None, None, false, "");
    var s := Initial.(doc := [e.(id := "a"), e.(id := "b"), e],
                      selection := ["a", "b", "c"], primary := Some("c"));
    assert Find(s.doc, "c") == Some(e);
    assert Without(["a", "b", "c"], "c") == ["a", "b"] by {
      WithoutSplices(["a", "b", "c"], 2);
      assert ["a", "b", "c"][..2] == ["a", "b"];
    }
  }

  /** A modifier-click strands the primary only when it removes the primary
      itself and leaves two or more elements selected. */
  predicate StrandsPrimary(s: State, t: Target, ctrl: bool, meta: bool) {
    && t.OnElement?
    && (ctrl || meta)
    && t.id in Ids(s.doc)
    && Some(t.id) == s.primary
    && |Without(s.selection, t.id)| >= 2
  }

  /** Every other pointer-down keeps the primary a member of the selection. */
  lemma MouseDownKeepsPrimaryUnlessStranded(s: State, t: Target, ctrl: bool, meta: bool, p: Point)
    requires PrimaryConsistent(s)
    requires !StrandsPrimary(s, t, ctrl, meta)
    ensures PrimaryConsistent(MouseDown(s, t, ctrl, meta, p))
  {
    var r := MouseDown(s, t, ctrl, meta, p);
    if t.OnElement? && (ctrl || meta) && t.id in Ids(s.doc) && t.id in s.selection {
      var rest := Without(s.selection, t.id);
      if |rest| >= 2 {
        assert s.primary.value in rest;
      } else if |rest| == 1 {
        assert rest[0] in rest;
      }
    }
  }

  /** The primary after removal as the selection invariant intends: kept when
      still selected, otherwise the most recently clicked remaining element. */
  function IntendedPrimaryAfterRemoval(rest: seq<Id>, primary: Option<Id>): (r: Option<Id>)
    ensures r.None? <==> |rest| == 0
    ensures r.Some? ==> r.value in rest
    ensures primary.Some? && primary.value in rest ==> r == primary
  {
    if |rest| == 0 then None
    else if primary.Some? && primary.value in rest then primary
    else Some(rest[|rest| - 1])
  }

  /** Modifier-click with the corrected primary update. */
  function ToggleDownIntended(s: State, id: Id): (r: State)
    ensures r.(selection := s.selection, primary := s.primary) == s
    ensures id in s.selection ==> r.selection == Without(s.selection, id)
    ensures id !in s.selection ==> r.selection == s.selection + [id] && r.primary == Some(id)
    ensures PrimaryConsistent(r)
  {
    if id in s.selection then
      var rest := Without(s.selection, id);
      s.(selection := rest, primary := IntendedPrimaryAfterRemoval(rest, s.primary))
    else
      assert id in s.selection + [id];
      s.(selection := s.selection + [id], primary := Some(id))
  }

  /** Pointer-down with the corrected toggle; every other branch is the code's. */
  function MouseDownIntended(s: State, t: Target, ctrl: bool, meta: bool, p: Point): (r: State)
    ensures PrimaryConsistent(s) ==> PrimaryConsistent(r)
    ensures !StrandsPrimary(s, t, ctrl, meta) && PrimaryConsistent(s) ==> r == MouseDown(s, t, ctrl, meta, p)
  {
    match t
    case Background => BackgroundDown(s, ctrl || meta)
    case OnElement(id) =>
      match Find(s.doc, id)
      case None => s
      case Some(e) =>
        if ctrl || meta then
          if !StrandsPrimary(s, t, ctrl, meta) && PrimaryConsistent(s) then
            IntendedToggleAgrees(s, id);
            ToggleDownIntended(s, id)
          else ToggleDownIntended(s, id)
        else
          assert e.id == id && [id][0] == id;
          PlainDown(s, e, p)
  }

  /** The correction changes the outcome only where the code strands the
      primary; everywhere else it agrees with the code as written. */
  lemma IntendedToggleAgrees(s: State, id: Id)
    requires PrimaryConsistent(s)
    requires id in Ids(s.doc)
    requires !StrandsPrimary(s, OnElement(id), true, false)
    ensures ToggleDownIntended(s, id) == ToggleDown(s, id)
  {
    if id in s.selection {
      var rest := Without(s.selection, id);
      if |rest| == 1 {
        assert rest[0] in rest;
        assert s.primary.value != id ==> s.primary.value in rest;
      }
    }
  }

  /** Pointer-move during a drag. Several selected elements each move by the
      delta since the last anchor, and the anchor follows the pointer. One
      or no selected element: the primary is placed at the element start plus
      the delta since the gesture's anchor, which stays put. */
  function MouseMove(s: State, p: Point): (r: State)
    ensures !s.drag.dragging ==> r == s
    ensures r.(doc := s.doc, drag := s.drag) == s
    ensures r.drag.dragging == s.drag.dragging && r.drag.elementStart == s.drag.elementStart
    ensures |r.doc| == |s.doc|
    ensures forall i :: 0 <= i < |s.doc| ==> r.doc[i].id == s.doc[i].id
    ensures s.drag.dragging && |s.selection| > 1 ==>
      && r.drag.start == p
      && forall i :: 0 <= i < |s.doc| && s.doc[i].id !in s.selection ==> r.doc[i] == s.doc[i]
    ensures |s.selection| <= 1 ==> r.drag == s.drag
    ensures s.drag.dragging && |s.selection| <= 1 && s.primary.None? ==> r == s
    ensures s.drag.dragging && |s.selection| <= 1 && s.primary.Some? ==>
      forall i :: 0 <= i < |s.doc| ==>
        r.doc[i] == (if s.doc[i].id == s.primary.value
                     then PlacedAt(s.doc[i], s.drag.elementStart.x + (p.x - s.drag.start.x),
                                   s.drag.elementStart.y + (p.y - s.drag.start.y))
                     else s.doc[i])
  {
    if !s.drag.dragging then s
    else
      var dx := p.x - s.drag.start.x;
      var dy := p.y - s.drag.start.y;
      if |s.selection| > 1 then
        s.(doc := MoveAll(s.doc, s.selection, dx, dy), drag := s.drag.(start := p))
      else
        match s.primary
        case None => s
        case Some(pid) =>
          var x := s.drag.elementStart.x + dx;
          var y := s.drag.elementStart.y + dy;
          s.(doc := Update(s.doc, pid, e => PlacedAt(e, x, y)))
  }

  /** Several selected elements: one move shifts each of them by exactly the
      delta since the anchor. */
  lemma MultiMoveShiftsSelected(s: State, p: Point)
    requires s.drag.dragging && |s.selection| > 1 && NoDup(s.selection)
    ensures forall i :: 0 <= i < |s.doc| && s.doc[i].id in s.selection ==>
      MouseMove(s, p).doc[i] == MovedBy(s.doc[i], p.x - s.drag.start.x, p.y - s.drag.start.y)
  {
    MoveAllMovesSelectedOnce(s.doc, s.selection, p.x - s.drag.start.x, p.y - s.drag.start.y);
  }

  /** The pointer-moves of one gesture, applied in order. Intermediate frames
      never reach the history store and never change the selection. */
  function Moves(s: State, ps: seq<Point>): (r: State)
    ensures r.history == s.history && r.committed == s.committed
    ensures r.selection == s.selection && r.primary == s.primary
    ensures r.clipboard == s.clipboard && r.deleteDialog == s.deleteDialog
    ensures r.drag.dragging == s.drag.dragging && r.drag.elementStart == s.drag.elementStart
    ensures |r.doc| == |s.doc|
    ensures forall i :: 0 <= i < |s.doc| ==> r.doc[i].id == s.doc[i].id
    decreases |ps|
  {
    if |ps| == 0 then s else MouseMove(Moves(s, ps[..|ps| - 1]), ps[|ps| - 1])
  }

  /** One selected element: the position after any number of moves depends
      only on the latest pointer, as element start plus (latest pointer -
      anchor); the anchor is never updated. */
  lemma {:induction false} SingleDragFollowsLastPointer(s: State, ps: seq<Point>)
    requires s.drag.dragging && |s.selection| <= 1 && s.primary.Some?
    requires |ps| > 0
    ensures Moves(s, ps).drag == s.drag
    ensures forall i :: 0 <= i < |s.doc| ==>
      Moves(s, ps).doc[i] == (if s.doc[i].id == s.primary.value
                              then PlacedAt(s.doc[i], s.drag.elementStart.x + (ps[|ps| - 1].x - s.drag.start.x),
                                            s.drag.elementStart.y + (ps[|ps| - 1].y - s.drag.start.y))
                              else s.doc[i])
    decreases |ps|
  {
    var n := |ps|;
    var prev := Moves(s, ps[..n - 1]);
    if n > 1 {
      assert ps[..n - 1][n - 2] == ps[n - 2];
      SingleDragFollowsLastPointer(s, ps[..n - 1]);
    } else {
      assert prev == s;
    }
  }

  /** Several selected elements: the per-frame deltas telescope, so each
      selected element ends displaced by (latest pointer - first anchor), the
      anchor ends at the latest pointer, and the others do not change. */
  lemma {:induction false} MultiDragTelescopes(s: State, ps: seq<Point>)
    requires s.drag.dragging && |s.selection| > 1 && NoDup(s.selection)
    requires |ps| > 0
    ensures Moves(s, ps).drag.start == ps[|ps| - 1]
    ensures forall i :: 0 <= i < |s.doc| ==>
      Moves(s, ps).doc[i] == (if s.doc[i].id in s.selection
                              then MovedBy(s.doc[i], ps[|ps| - 1].x - s.drag.start.x,
                                           ps[|ps| - 1].y - s.drag.start.y)
                              else s.doc[i])
    decreases |ps|
  {
    var n := |ps|;
    var prev := Moves(s, ps[..n - 1]);
    var last := ps[n - 1];
    if n > 1 {
      var mid := ps[n - 2];
      assert ps[..n - 1][n - 2] == mid;
      MultiDragTelescopes(s, ps[..n - 1]);
      MultiMoveShiftsSelected(prev, last);
      forall i | 0 <= i < |s.doc| && s.doc[i].id in s.selection
        ensures Moves(s, ps).doc[i]
                == MovedBy(s.doc[i], last.x - s.drag.start.x, last.y - s.drag.start.y)
      {
        MovedByComposes(s.doc[i], mid.x - s.drag.start.x, mid.y - s.drag.start.y,
                        last.x - mid.x, last.y - mid.y);
      }
    } else {
      assert prev == s;
      MultiMoveShiftsSelected(s, last);
    }
  }

  /** Two frames with one element selected: moves by (dx1, dy1) and then by a
      further (dx2, dy2) leave it at element start + (dx1 + dx2, dy1 + dy2). */
  lemma SingleDragTwoFrames(s: State, dx1: int, dy1: int, dx2: int, dy2: int)
    requires s.drag.dragging && |s.selection| <= 1 && s.primary.Some?
    ensures var a := s.drag.start;
            var r := MouseMove(MouseMove(s, Point(a.x + dx1, a.y + dy1)),
                               Point(a.x + dx1 + dx2, a.y + dy1 + dy2));
            forall i :: 0 <= i < |s.doc| && s.doc[i].id == s.primary.value ==>
              r.doc[i] == PlacedAt(s.doc[i], s.drag.elementStart.x + (dx1 + dx2),
                                   s.drag.elementStart.y + (dy1 + dy2))
  {
    var a := s.drag.start;
    var ps := [Point(a.x + dx1, a.y + dy1), Point(a.x + dx1 + dx2, a.y + dy1 + dy2)];
    assert ps[..1] == [ps[0]];
    assert [ps[0]][..0] == [];
    assert Moves(s, [ps[0]]) == MouseMove(s, ps[0]);
    assert Moves(s, ps) == MouseMove(MouseMove(s, ps[0]), ps[1]);
    SingleDragFollowsLastPointer(s, ps);
  }

  /** Two frames with several elements selected: every selected element moves
      by the sum of the two per-frame deltas. */
  lemma MultiDragTwoFrames(s: State, dx1: int, dy1: int, dx2: int, dy2: int)
    requires s.drag.dragging && |s.selection| > 1 && NoDup(s.selection)
    ensures var a := s.drag.start;
            var r := MouseMove(MouseMove(s, Point(a.x + dx1, a.y + dy1)),
                               Point(a.x + dx1 + dx2, a.y + dy1 + dy2));
            forall i :: 0 <= i < |s.doc| && s.doc[i].id in s.selection ==>
              r.doc[i] == MovedBy(s.doc[i], dx1 + dx2, dy1 + dy2)
  {
    var a := s.drag.start;
    var ps := [Point(a.x + dx1, a.y + dy1), Point(a.x + dx1 + dx2, a.y + dy1 + dy2)];
    assert ps[..1] == [ps[0]];
    assert [ps[0]][..0] == [];
    assert Moves(s, [ps[0]]) == MouseMove(s, ps[0]);
    assert Moves(s, ps) == MouseMove(MouseMove(s, ps[0]), ps[1]);
    MultiDragTelescopes(s, ps);
  }

  /** Pointer-up: hands the surface to the history store exactly when a drag
      was active, and always ends the drag. */
  function MouseUp(s: State): (r: State)
    ensures !r.drag.dragging
    ensures r.doc == s.doc
    ensures s.drag.dragging ==> r.history == s.history + [s.doc] && r.committed == s.doc
    ensures !s.drag.dragging ==> r.history == s.history && r.committed == s.committed
    ensures r.(history := s.history, committed := s.committed, drag := s.drag) == s
    ensures r.drag.start == s.drag.start && r.drag.elementStart == s.drag.elementStart
  {
    var c := if s.drag.dragging then Commit(s, s.doc) else s;
    c.(drag := c.drag.(dragging := false))
  }

  /** A whole drag gesture started by a plain click: the clicked element is
      absolutely positioned and ends displaced by (last pointer - first
      pointer) from where it was shown; every other element is unchanged;
      the history store receives exactly one snapshot, the final surface. */
  lemma DragGesture(s: State, k: int, p0: Point, ps: seq<Point>)
    requires UniqueIds(s.doc)
    requires 0 <= k < |s.doc|
    requires |ps| > 0
    ensures var r := MouseUp(Moves(MouseDown(s, OnElement(s.doc[k].id), false, false, p0), ps));
            var last := ps[|ps| - 1];
            && r.history == s.history + [r.doc]
            && r.committed == r.doc
            && !r.drag.dragging
            && |r.doc| == |s.doc|
            && r.doc[k].absolute
            && OrZero(r.doc[k].left) == OrZero(s.doc[k].left) + (last.x - p0.x)
            && OrZero(r.doc[k].top) == OrZero(s.doc[k].top) + (last.y - p0.y)
            && forall i :: 0 <= i < |s.doc| && i != k ==> r.doc[i] == s.doc[i]
  {
    var e := s.doc[k];
    FindUnique(s.doc, k);
    var s1 := MouseDown(s, OnElement(e.id), false, false, p0);
    assert s1 == PlainDown(s, e, p0);
    SingleDragFollowsLastPointer(s1, ps);
    forall i | 0 <= i < |s.doc| && i != k ensures s.doc[i].id != e.id {
      if i < k { assert s.doc[i].id != s.doc[k].id; } else { assert s.doc[k].id != s.doc[i].id; }
    }
  }

  /** The primary element is on the stage and is an image. */
  predicate PrimaryIsImage(s: State) {
    && s.primary.Some?
    && Find(s.doc, s.primary.value).Some?
    && Find(s.doc, s.primary.value).value.kind == Image
  }

  /** Resize from the overlay: applies only when the primary element is an
      image, and then sets that element's width and height and nothing else. */
  function Resize(s: State, w: int, h: int): (r: State)
    ensures r.(doc := s.doc) == s
    ensures s.primary.None? ==> r == s
    ensures !PrimaryIsImage(s) ==> r == s
    ensures |r.doc| == |s.doc|
    ensures forall i :: 0 <= i < |s.doc| && (s.primary.None? || s.doc[i].id != s.primary.value)
              ==> r.doc[i] == s.doc[i]
    ensures PrimaryIsImage(s) ==>
      forall i :: 0 <= i < |s.doc| && s.doc[i].id == s.primary.value ==>
        r.doc[i].width == Some(w) && r.doc[i].height == Some(h)
        && r.doc[i].(width := s.doc[i].width, height := s.doc[i].height) == s.doc[i]
  {
    match s.primary
    case None => s
    case Some(pid) =>
      match Find(s.doc, pid)
      case None => s
      case Some(e) =>
        if e.kind == Image then s.(doc := Update(s.doc, pid, (x: Element) => x.(width := Some(w), height := Some(h))))
        else s
  }

  /** Resize completion: hands the surface to the history store once. */
  function ResizeEnd(s: State): (r: State)
    ensures r.history == s.history + [s.doc] && r.committed == s.doc
    ensures r.doc == s.doc
    ensures r.(history := s.history, committed := s.committed) == s
  {
    Commit(s, s.doc)
  }

  /** The resize handles show when a single element is selected and the
      primary element is an image. */
  predicate HandlesVisible(s: State) {
    && PrimaryIsImage(s)
    && |s.selection| == 1
  }

  /** Whenever the handles show, a resize they drive takes effect on the
      primary image; when the primary is missing or not an image, a resize is
      ignored. */
  lemma HandlesDriveResize(s: State, w: int, h: int)
    ensures HandlesVisible(s) ==>
      forall i :: 0 <= i < |s.doc| && s.doc[i].id == s.primary.value ==>
        Resize(s, w, h).doc[i].width == Some(w) && Resize(s, w, h).doc[i].height == Some(h)
    ensures !PrimaryIsImage(s) ==> Resize(s, w, h) == s
  {
  }
}
