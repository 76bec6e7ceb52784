/** The page's handlers: import, adding text and images, the delete dialog,
    copy and paste.

    New elements and pasted copies are built onto the store's current
    snapshot (`committed`), not onto the live surface, and the result is
    handed to the history store with `Commit`. Identifier generation is a
    collaborator: the identifiers it returns arrive as parameters, and
    freshness is a hypothesis of the lemmas that need it.
 */
module AppPage {
  import opened Document
  import opened Editor

  /** How far a pasted copy lands from its original, on each axis. */
  const PasteOffset := 20

  /** Import: the history store restarts at the imported snapshot and nothing
      is selected. The clipboard, any drag and the dialog are untouched. */
  function Import(s: State, d: Snapshot): (r: State)
    ensures r.history == [d] && r.committed == d
    ensures HistoryInSync(r)
    ensures r.selection == [] && r.primary.None?
    ensures r.clipboard == s.clipboard && r.drag == s.drag && r.deleteDialog == s.deleteDialog
    ensures d != s.committed && |d| > 0 ==> r.doc == d
    ensures d == s.committed || |d| == 0 ==> r.doc == s.doc
  {
    var shown := if d != s.committed && |d| > 0 then d else s.doc;
    s.(doc := shown, committed := d, history := [d], selection := [], primary := None)
  }

  /** Appends one element to the store's snapshot and commits the result; the
      stage then shows exactly that snapshot. */
  function Append(s: State, e: Element): (r: State)
    ensures r.committed == s.committed + [e]
    ensures r.history == s.history + [r.committed]
    ensures r.doc == r.committed
    ensures r.(doc := s.doc, committed := s.committed, history := s.history) == s
  {
    Commit(s, s.committed + [e])
  }

  /** Add text: one new absolutely positioned text element at (50, 50). */
  function AddText(s: State, newId: Id): (r: State)
    ensures |r.committed| == |s.committed| + 1
    ensures r.committed[..|s.committed|] == s.committed
    ensures var t := r.committed[|s.committed|];
            t.id == newId && t.kind == Text && t.absolute
            && t.left == Some(50) && t.top == Some(50) && t.content == "New Text"
    ensures r.history == s.history + [r.committed] && r.doc == r.committed
    ensures r.(doc := s.doc, committed := s.committed, history := s.history) == s
  {
    Append(s, Element(newId, Text, Some(50), Some(50), None, None, true, "New Text"))
  }

  /** Add image: one new absolutely positioned 200 x 200 image at (100, 100)
      showing `url`. */
  function AddImage(s: State, newId: Id, url: string): (r: State)
    ensures |r.committed| == |s.committed| + 1
    ensures r.committed[..|s.committed|] == s.committed
    ensures var m := r.committed[|s.committed|];
            m.id == newId && m.kind == Image && m.absolute && m.content == url
            && m.left == Some(100) && m.top == Some(100)
            && m.width == Some(200) && m.height == Some(200)
    ensures r.history == s.history + [r.committed] && r.doc == r.committed
    ensures r.(doc := s.doc, committed := s.committed, history := s.history) == s
  {
    Append(s, Element(newId, Image, Some(100), Some(100), Some(200), Some(200), true, url))
  }

  /** With a fresh identifier, adding an element keeps snapshot ids unique. */
  lemma AddKeepsIdsUnique(s: State, newId: Id, url: string)
    requires UniqueIds(s.committed)
    requires newId !in Ids(s.committed)
    ensures UniqueIds(AddText(s, newId).committed)
    ensures UniqueIds(AddImage(s, newId, url).committed)
  {
    forall e | e in s.committed ensures e.id != newId {
      assert e.id in Ids(s.committed);
    }
  }

  /** Delete request: the dialog opens only when something is selected. */
  function RequestDelete(s: State): (r: State)
    ensures r.deleteDialog <==> s.deleteDialog || |s.selection| > 0
    ensures r.(deleteDialog := s.deleteDialog) == s
  {
    if |s.selection| > 0 then s.(deleteDialog := true) else s
  }

  /** Cancelling the dialog closes it and changes nothing else. */
  function CancelDelete(s: State): (r: State)
    ensures !r.deleteDialog
    ensures r.(deleteDialog := s.deleteDialog) == s
  {
    s.(deleteDialog := false)
  }

  /** The surface, selection and dialog once the selected elements are gone. */
  function Removed(s: State): State {
    s.(doc := RemoveIds(s.doc, Members(s.selection)), primary := None, selection := [],
       deleteDialog := false)
  }

  /** Confirming the dialog, as written: every selected element leaves the
      surface and the selection, primary and dialog are cleared, but the
      snapshot handed to the history store is the store's previous one. */
  function ConfirmDelete(s: State): (r: State)
    ensures |s.selection| == 0 ==> r == s
    ensures |s.selection| > 0 ==>
      && r.selection == [] && r.primary.None? && !r.deleteDialog
      && (forall e :: e in r.doc <==> e in s.doc && e.id !in s.selection)
      && r.doc == RemoveIds(s.doc, Members(s.selection))
      && r.committed == s.committed
      && r.history == s.history + [s.committed]
      && r.clipboard == s.clipboard && r.drag == s.drag
  {
    if |s.selection| > 0 then Commit(Removed(s), s.committed) else s
  }

  /** With unique ids and every selected id on the stage, confirming removes
      exactly as many elements as were selected. */
  lemma ConfirmDeleteCount(s: State)
    requires UniqueIds(s.doc) && NoDup(s.selection)
    requires forall k :: 0 <= k < |s.selection| ==> s.selection[k] in Ids(s.doc)
    requires |s.selection| > 0
    ensures |ConfirmDelete(s).doc| == |s.doc| - |s.selection|
  {
    RemoveIdsCount(s.doc, Members(s.selection));
    NoDupMembers(s.selection);
    assert Members(s.selection) * Ids(s.doc) == Members(s.selection);
  }

  /** As written, the history store is not told about the removal: a deleted
      element that was in the store's snapshot stays there while it is gone
      from the surface. */
  lemma ConfirmDeleteLeavesSnapshotStale(s: State, k: int)
    requires 0 <= k < |s.selection|
    requires s.selection[k] in Ids(s.committed)
    ensures s.selection[k] in Ids(ConfirmDelete(s).committed)
    ensures s.selection[k] !in Ids(ConfirmDelete(s).doc)
    ensures ConfirmDelete(s).committed != ConfirmDelete(s).doc
  {
    assert s.selection[k] in Members(s.selection);
  }

  /** A concrete instance: one selected element, deleted from a surface that
      matched the store. */
  lemma ConfirmDeleteExample()
    ensures var a := Element("a", Text, None, None, None, None, false, "");
            var b := a.(id := "b");
            var s := Initial.(doc := [a, b], committed := [a, b], history := [[a, b]],
                              selection := ["a"], primary := Some("a"), deleteDialog := true);
            var r := ConfirmDelete(s);
            r.doc == [b] && r.committed == [a, b] && r.history == [[a, b], [a, b]]
  {
    var a := Element("a", Text, None, None, None, None, false, "");
    var b := a.(id := "b");
    assert Members(["a"]) == {"a"};
    RemoveIdsCons([a, b], {"a"});
    assert [a, b][1..] == [b];
    RemoveIdsCons([b], {"a"});
    assert [b][1..] == [];
    assert RemoveIds([a, b], {"a"}) == [b];
  }

  /** Because the store kept the old snapshot, the next edit built on it
      brings a deleted element back onto the surface. */
  lemma DeletedElementReturnsOnAdd(s: State, k: int, newId: Id)
    requires 0 <= k < |s.selection|
    requires s.selection[k] in Ids(s.committed)
    ensures s.selection[k] !in Ids(ConfirmDelete(s).doc)
    ensures s.selection[k] in Ids(AddText(ConfirmDelete(s), newId).doc)
  {
    ConfirmDeleteLeavesSnapshotStale(s, k);
    var r := ConfirmDelete(s);
    IdsAppend(r.committed, [Element(newId, Text, Some(50), Some(50), None, None, true, "New Text")]);
  }

  /** Confirming the dialog as intended: the surface after removal is what the
      history store receives. */
  function ConfirmDeleteIntended(s: State): (r: State)
    ensures |s.selection| == 0 ==> r == s
    ensures |s.selection| > 0 ==>
      && r.selection == [] && r.primary.None? && !r.deleteDialog
      && (forall e :: e in r.doc <==> e in s.doc && e.id !in s.selection)
      && r.doc == RemoveIds(s.doc, Members(s.selection))
      && r.committed == r.doc
      && r.history == s.history + [r.doc]
      && (forall k :: 0 <= k < |s.selection| ==> s.selection[k] !in Ids(r.committed))
  {
    if |s.selection| > 0 then
      var t := Removed(s);
      Commit(t, t.doc)
    else s
  }

  /** The two confirmations leave the same surface and selection; they
      differ only in what the history store receives. */
  lemma ConfirmDeleteVariantsAgreeOnStage(s: State)
    ensures ConfirmDeleteIntended(s).doc == ConfirmDelete(s).doc
    ensures ConfirmDeleteIntended(s).selection == ConfirmDelete(s).selection
    ensures ConfirmDeleteIntended(s).primary == ConfirmDelete(s).primary
  {
  }

  /** The markup a copy of `id` puts on the clipboard; an id with no element
      on the stage gives markup that pastes to nothing. */
  function CopyOf(d: Doc, id: Id): Fragment {
    match Find(d, id)
    case Some(e) => Markup(e)
    case None => Malformed
  }

  /** Copy: with a non-empty selection, the clipboard is replaced wholesale by
      the selected elements' markup in selection order; otherwise nothing
      changes. */
  function Copy(s: State): (r: State)
    ensures |s.selection| == 0 ==> r == s
    ensures |s.selection| > 0 ==> |r.clipboard| == |s.selection|
    ensures |s.selection| > 0 ==> forall k :: 0 <= k < |s.selection| && s.selection[k] in Ids(s.doc) ==>
      r.clipboard[k].Markup? && r.clipboard[k].element.id == s.selection[k]
      && r.clipboard[k].element in s.doc
    ensures r.(clipboard := s.clipboard) == s
  {
    if |s.selection| > 0 then
      s.(clipboard := seq(|s.selection|, k requires 0 <= k < |s.selection| => CopyOf(s.doc, s.selection[k])))
    else s
  }

  /** A pasted copy: the generated id, offsets of the original (unset read as
      0) plus the paste offset, everything else as copied. */
  function Relocated(e: Element, id: Id): (r: Element)
    ensures r.id == id
    ensures OrZero(r.left) == OrZero(e.left) + 20 && OrZero(r.top) == OrZero(e.top) + 20
    ensures r.(id := e.id, left := e.left, top := e.top) == e
  {
    e.(id := id, left := Some(OrZero(e.left) + PasteOffset), top := Some(OrZero(e.top) + PasteOffset))
  }

  /** The elements pasted from clipboard entries; the entry at position `k`
      of the whole clipboard receives the generated id `genId(k)`, and
      unparsable entries contribute nothing. */
  function Pasted(cb: seq<Fragment>, genId: nat -> Id, next: nat): (r: Snapshot)
    ensures |r| <= |cb|
    decreases |cb|
  {
    if |cb| == 0 then []
    else
      var head := match cb[0] case Markup(e) => [Relocated(e, genId(next))] case Malformed => [];
      head + Pasted(cb[1..], genId, next + 1)
  }

  /** Every pasted copy carries one of the ids generated for its batch. */
  lemma {:induction false} PastedIdsGenerated(cb: seq<Fragment>, genId: nat -> Id, next: nat)
    ensures forall e :: e in Pasted(cb, genId, next) ==>
      exists k :: next <= k < next + |cb| && e.id == genId(k)
    decreases |cb|
  {
    if |cb| > 0 {
      PastedIdsGenerated(cb[1..], genId, next + 1);
    }
  }

  /** When no generated id coincides with the id of a copied element, no
      pasted copy carries the id of an element on the clipboard. */
  lemma PastedIdsNotCopied(cb: seq<Fragment>, genId: nat -> Id, next: nat)
    requires forall k, f :: next <= k < next + |cb| && f in cb && f.Markup? ==> genId(k) != f.element.id
    ensures forall e, f :: e in Pasted(cb, genId, next) && f in cb && f.Markup? ==> e.id != f.element.id
  {
    PastedIdsGenerated(cb, genId, next);
  }

  /** Paste: an empty clipboard changes nothing; otherwise the pasted copies
      are appended, in clipboard order, to the store's snapshot and committed.
      The clipboard itself is left as it is. */
  function Paste(s: State, genId: nat -> Id): (r: State)
    ensures |s.clipboard| == 0 ==> r == s
    ensures |s.clipboard| > 0 ==>
      && r.committed == s.committed + Pasted(s.clipboard, genId, 0)
      && r.history == s.history + [r.committed]
    ensures r.committed[..|s.committed|] == s.committed
    ensures |s.clipboard| > 0 && |Pasted(s.clipboard, genId, 0)| > 0 ==> r.doc == r.committed
    ensures |Pasted(s.clipboard, genId, 0)| == 0 ==> r.doc == s.doc
    ensures r.(doc := s.doc, committed := s.committed, history := s.history) == s
  {
    if |s.clipboard| > 0 then Commit(s, s.committed + Pasted(s.clipboard, genId, 0)) else s
  }

  /** Pasting distributes over the clipboard: each entry contributes its own
      copies, in order. */
  lemma {:induction false} PastedAppend(a: seq<Fragment>, b: seq<Fragment>, genId: nat -> Id, next: nat)
    ensures Pasted(a + b, genId, next) == Pasted(a, genId, next) + Pasted(b, genId, next + |a|)
    decreases |a|
  {
    if |a| == 0 {
      assert a + b == b;
    } else {
      assert (a + b)[0] == a[0];
      assert (a + b)[1..] == a[1..] + b;
      PastedAppend(a[1..], b, genId, next + 1);
    }
  }

  /** A well-formed entry pastes to one relocated copy; a malformed one to
      nothing. */
  lemma PastedSingle(f: Fragment, genId: nat -> Id, next: nat)
    ensures f.Markup? ==> Pasted([f], genId, next) == [Relocated(f.element, genId(next))]
    ensures f.Malformed? ==> Pasted([f], genId, next) == []
  {
    assert [f][1..] == [];
  }

  /** When every entry parses, entry `k` becomes the `k`-th pasted element:
      the copy with id `genId(next + k)` at the original offsets plus 20. */
  lemma {:induction false} PastedWellFormed(cb: seq<Fragment>, genId: nat -> Id, next: nat)
    requires forall k :: 0 <= k < |cb| ==> cb[k].Markup?
    ensures |Pasted(cb, genId, next)| == |cb|
    ensures forall k :: 0 <= k < |cb| ==>
      Pasted(cb, genId, next)[k] == Relocated(cb[k].element, genId(next + k))
    decreases |cb|
  {
    if |cb| > 0 {
      var tail := cb[1..];
      PastedWellFormed(tail, genId, next + 1);
      forall k | 0 <= k < |cb|
        ensures Pasted(cb, genId, next)[k] == Relocated(cb[k].element, genId(next + k))
      {
        if k > 0 {
          assert cb[k] == tail[k - 1];
        }
      }
    }
  }

  /** Pasted copies take only generated ids: with ids that are pairwise
      distinct and unused in the snapshot, the snapshot's ids stay unique. */
  lemma {:induction false} PastedIdsUnique(cb: seq<Fragment>, genId: nat -> Id, next: nat)
    requires forall i, j :: next <= i < j < next + |cb| ==> genId(i) != genId(j)
    ensures UniqueIds(Pasted(cb, genId, next))
    decreases |cb|
  {
    if |cb| > 0 {
      PastedIdsUnique(cb[1..], genId, next + 1);
      PastedIdsGenerated(cb[1..], genId, next + 1);
      var tail := Pasted(cb[1..], genId, next + 1);
      var r := Pasted(cb, genId, next);
      if cb[0].Markup? {
        assert r == [Relocated(cb[0].element, genId(next))] + tail;
        forall i, j | 0 <= i < j < |r| ensures r[i].id != r[j].id {
          if i == 0 {
            assert r[j] == tail[j - 1] && r[j] in tail;
          } else {
            assert r[i] == tail[i - 1] && r[j] == tail[j - 1];
          }
        }
      } else {
        assert r == tail;
      }
    }
  }

  lemma {:induction false} UniqueAppend(a: Doc, b: Doc)
    requires UniqueIds(a) && UniqueIds(b)
    requires Ids(a) !! Ids(b)
    ensures UniqueIds(a + b)
  {
    var r := a + b;
    forall i, j | 0 <= i < j < |r| ensures r[i].id != r[j].id {
      if j < |a| {
        assert r[i] == a[i] && r[j] == a[j];
      } else if i >= |a| {
        assert r[i] == b[i - |a|] && r[j] == b[j - |a|];
      } else {
        assert r[i] == a[i] && r[j] == b[j - |a|];
        assert r[i].id in Ids(a) && r[j].id in Ids(b);
      }
    }
  }

  /** Paste keeps snapshot ids unique when the generator's ids are fresh. */
  lemma PasteKeepsIdsUnique(s: State, genId: nat -> Id)
    requires UniqueIds(s.committed)
    requires forall i, j :: 0 <= i < j < |s.clipboard| ==> genId(i) != genId(j)
    requires forall k :: 0 <= k < |s.clipboard| ==> genId(k) !in Ids(s.committed)
    ensures UniqueIds(Paste(s, genId).committed)
  {
    if |s.clipboard| > 0 {
      var p := Pasted(s.clipboard, genId, 0);
      PastedIdsUnique(s.clipboard, genId, 0);
      PastedIdsGenerated(s.clipboard, genId, 0);
      forall x | x in Ids(p) ensures x !in Ids(s.committed) {
        var e :| e in p && e.id == x;
        var k :| 0 <= k < |s.clipboard| && e.id == genId(k);
      }
      UniqueAppend(s.committed, p);
    }
  }

  /** Copying one selected element and pasting it yields one new element with
      a different id, 20 pixels right of and below the original, after an
      untouched copy of the previous snapshot. */
  lemma CopyThenPaste(s: State, genId: nat -> Id)
    requires |s.selection| == 1 && s.selection[0] in Ids(s.doc)
    requires genId(0) != s.selection[0]
    ensures var e := Find(s.doc, s.selection[0]).value;
            var r := Paste(Copy(s), genId);
            && r.committed == s.committed + [Relocated(e, genId(0))]
            && r.committed[|s.committed|].id != e.id
            && OrZero(r.committed[|s.committed|].left) == OrZero(e.left) + 20
            && OrZero(r.committed[|s.committed|].top) == OrZero(e.top) + 20
            && r.doc == r.committed
            && r.history == s.history + [r.committed]
  {
    var c := Copy(s);
    var e := Find(s.doc, s.selection[0]).value;
    assert c.clipboard == [Markup(e)];
    PastedSingle(Markup(e), genId, 0);
  }

  lemma PasteTwice(s: State, gen1: nat -> Id, gen2: nat -> Id)
    requires |s.clipboard| > 0
    ensures Paste(Paste(s, gen1), gen2).clipboard == s.clipboard
    ensures Paste(Paste(s, gen1), gen2).committed
            == s.committed + Pasted(s.clipboard, gen1, 0) + Pasted(s.clipboard, gen2, 0)
  {
  }

  /** Two batches pasted from one clipboard onto a snapshot. */
  lemma TwoBatches(c: Snapshot, cb: seq<Fragment>, gen1: nat -> Id, gen2: nat -> Id)
    requires forall k :: 0 <= k < |cb| ==> cb[k].Markup?
    ensures var all := c + Pasted(cb, gen1, 0) + Pasted(cb, gen2, 0);
            && |all| == |c| + 2 * |cb|
            && all[..|c|] == c
            && forall k :: 0 <= k < |cb| ==>
                 && all[|c| + k] == Relocated(cb[k].element, gen1(k))
                 && all[|c| + |cb| + k] == Relocated(cb[k].element, gen2(k))
  {
    var n := |c|;
    var m := |cb|;
    var p1 := Pasted(cb, gen1, 0);
    var p2 := Pasted(cb, gen2, 0);
    PastedWellFormed(cb, gen1, 0);
    PastedWellFormed(cb, gen2, 0);
    var all := c + p1 + p2;
    assert all[..n] == c;
    forall k | 0 <= k < m
      ensures all[n + k] == Relocated(cb[k].element, gen1(k))
      ensures all[n + m + k] == Relocated(cb[k].element, gen2(k))
    {
      assert all[n + k] == p1[k];
      assert all[n + m + k] == p2[k];
    }
  }

  /** Pasting twice places both batches at the same offsets (original + 20),
      not at cumulative offsets, and leaves the clipboard as it was. */
  lemma RepeatedPaste(s: State, gen1: nat -> Id, gen2: nat -> Id)
    requires |s.clipboard| > 0
    requires forall k :: 0 <= k < |s.clipboard| ==> s.clipboard[k].Markup?
    ensures var r := Paste(Paste(s, gen1), gen2);
            var n := |s.committed|;
            var m := |s.clipboard|;
            && r.clipboard == s.clipboard
            && |r.committed| == n + 2 * m
            && r.committed[..n] == s.committed
            && forall k :: 0 <= k < m ==>
                 && r.committed[n + k] == Relocated(s.clipboard[k].element, gen1(k))
                 && r.committed[n + m + k] == Relocated(s.clipboard[k].element, gen2(k))
  {
    PasteTwice(s, gen1, gen2);
    TwoBatches(s.committed, s.clipboard, gen1, gen2);
  }
}
