/** The elements shown on the editing stage, reduced to records.

    Each direct child of the stage becomes an `Element`: its identifier, what
    kind of element it is, its CSS offsets and size as optional integers (an
    unset or unparsable CSS length is `None`) and the `absolute` flag. The
    flag means the element carries an inline position and its computed
    position is not static, so a click does not promote it; the stage's
    promotion sets an inline absolute position, which sets the flag.
    Everything that reads a length the way the editor does
    (`parseInt(...) || 0`) goes through `OrZero`.
 */
module Document {

  datatype Option<T> = None | Some(value: T)

  /** A CSS length as the editor reads it: unset counts as 0. */
  function OrZero(v: Option<int>): int {
    match v
    case Some(n) => n
    case None => 0
  }

  type Id = string

  datatype Kind = Image | Text | Other

  datatype Element = Element(
    id: Id,
    kind: Kind,
    left: Option<int>,
    top: Option<int>,
    width: Option<int>,
    height: Option<int>,
    absolute: bool,
    content: string)

  /** The stage's direct children, in document order. */
  type Doc = seq<Element>

  function Ids(d: Doc): set<Id> {
    set e | e in d :: e.id
  }

  /** Identifiers are unique, as the id-assignment pass intends. */
  predicate UniqueIds(d: Doc) {
    forall i, j :: 0 <= i < j < |d| ==> d[i].id != d[j].id
  }

  predicate NoDup<T(==)>(s: seq<T>) {
    forall i, j :: 0 <= i < j < |s| ==> s[i] != s[j]
  }

  function Members<T>(s: seq<T>): set<T> {
    set x | x in s
  }

  lemma IdsCons(d: Doc)
    requires |d| > 0
    ensures Ids(d) == {d[0].id} + Ids(d[1..])
  {
    assert d == [d[0]] + d[1..];
  }

  lemma IdsAppend(a: Doc, b: Doc)
    ensures Ids(a + b) == Ids(a) + Ids(b)
  {
  }

  /** The first element carrying `id`, or `None` if no element does. */
  function Find(d: Doc, id: Id): (r: Option<Element>)
    ensures r.Some? ==> r.value in d && r.value.id == id
    ensures r.None? <==> id !in Ids(d)
    decreases |d|
  {
    if |d| == 0 then None
    else if d[0].id == id then Some(d[0])
    else IdsCons(d); Find(d[1..], id)
  }

  lemma {:induction false} FindUnique(d: Doc, i: int)
    requires UniqueIds(d)
    requires 0 <= i < |d|
    ensures Find(d, d[i].id) == Some(d[i])
    decreases |d|
  {
    if i > 0 {
      assert d[0].id != d[i].id;
      FindUnique(d[1..], i - 1);
    }
  }

  /** Applies `f` to every element carrying `id`; the rest are untouched. */
  function Update(d: Doc, id: Id, f: Element -> Element): (r: Doc)
    ensures |r| == |d|
    ensures forall i :: 0 <= i < |d| ==> r[i] == if d[i].id == id then f(d[i]) else d[i]
  {
    seq(|d|, i requires 0 <= i < |d| => if d[i].id == id then f(d[i]) else d[i])
  }

  /** The element moved by a delta from its current offsets. */
  function MovedBy(e: Element, dx: int, dy: int): Element {
    e.(left := Some(OrZero(e.left) + dx), top := Some(OrZero(e.top) + dy))
  }

  /** The element with its offsets written as `x`, `y`. */
  function PlacedAt(e: Element, x: int, y: int): Element {
    e.(left := Some(x), top := Some(y))
  }

  lemma MovedByComposes(e: Element, dx1: int, dy1: int, dx2: int, dy2: int)
    ensures MovedBy(MovedBy(e, dx1, dy1), dx2, dy2) == MovedBy(e, dx1 + dx2, dy1 + dy2)
  {
  }

  /** Moves, one selection entry after another, every element whose id is in
      `sel` by the same delta. */
  function MoveAll(d: Doc, sel: seq<Id>, dx: int, dy: int): (r: Doc)
    ensures |r| == |d|
    ensures forall i :: 0 <= i < |d| ==> r[i].id == d[i].id
    ensures forall i :: 0 <= i < |d| && d[i].id !in sel ==> r[i] == d[i]
    decreases |sel|
  {
    if |sel| == 0 then d
    else MoveAll(Update(d, sel[0], e => MovedBy(e, dx, dy)), sel[1..], dx, dy)
  }

  /** With no repeated entry in the selection, each selected element moves by
      the delta exactly once. */
  lemma {:induction false} MoveAllMovesSelectedOnce(d: Doc, sel: seq<Id>, dx: int, dy: int)
    requires NoDup(sel)
    ensures forall i :: 0 <= i < |d| && d[i].id in sel ==> MoveAll(d, sel, dx, dy)[i] == MovedBy(d[i], dx, dy)
    decreases |sel|
  {
    if |sel| > 0 {
      var d' := Update(d, sel[0], e => MovedBy(e, dx, dy));
      var rest := sel[1..];
      assert NoDup(rest);
      MoveAllMovesSelectedOnce(d', rest, dx, dy);
      forall i | 0 <= i < |d| && d[i].id in sel
        ensures MoveAll(d, sel, dx, dy)[i] == MovedBy(d[i], dx, dy)
      {
        if d[i].id == sel[0] {
          assert sel[0] !in rest by {
            forall k | 0 <= k < |rest| ensures rest[k] != sel[0] {
              assert rest[k] == sel[k + 1];
            }
          }
          assert d'[i] == MovedBy(d[i], dx, dy);
        } else {
          assert d'[i] == d[i];
        }
      }
    }
  }

  /** The selection with every occurrence of `id` taken out, order kept. */
  function Without(sel: seq<Id>, id: Id): (r: seq<Id>)
    ensures forall x :: x in r <==> x in sel && x != id
    ensures |r| <= |sel|
    decreases |sel|
  {
    if |sel| == 0 then []
    else if sel[0] == id then Without(sel[1..], id)
    else [sel[0]] + Without(sel[1..], id)
  }

  lemma {:induction false} WithoutAbsent(sel: seq<Id>, id: Id)
    requires id !in sel
    ensures Without(sel, id) == sel
    decreases |sel|
  {
    if |sel| > 0 {
      WithoutAbsent(sel[1..], id);
      assert sel == [sel[0]] + sel[1..];
    }
  }

  /** Removing a selected id cuts exactly its position out of the selection,
      keeping every other entry in its order. */
  lemma {:induction false} WithoutSplices(sel: seq<Id>, k: int)
    requires NoDup(sel)
    requires 0 <= k < |sel|
    ensures Without(sel, sel[k]) == sel[..k] + sel[k + 1..]
    decreases |sel|
  {
    var rest := sel[1..];
    assert NoDup(rest);
    if k == 0 {
      assert sel[0] !in rest by {
        forall j | 0 <= j < |rest| ensures rest[j] != sel[0] {
          assert rest[j] == sel[j + 1];
        }
      }
      WithoutAbsent(rest, sel[0]);
    } else {
      assert sel[0] != sel[k];
      assert rest[k - 1] == sel[k];
      WithoutSplices(rest, k - 1);
      assert sel[..k] == [sel[0]] + rest[..k - 1];
      assert sel[k + 1..] == rest[k..];
    }
  }

  lemma {:induction false} WithoutNoDup(sel: seq<Id>, id: Id)
    requires NoDup(sel)
    ensures NoDup(Without(sel, id))
    decreases |sel|
  {
    if |sel| > 0 {
      var rest := sel[1..];
      assert NoDup(rest);
      WithoutNoDup(rest, id);
      if sel[0] != id {
        assert sel[0] !in rest by {
          forall j | 0 <= j < |rest| ensures rest[j] != sel[0] {
            assert rest[j] == sel[j + 1];
          }
        }
        var w := Without(rest, id);
        assert sel[0] !in w;
        var r := [sel[0]] + w;
        forall i, j | 0 <= i < j < |r| ensures r[i] != r[j] {
          if i == 0 {
            assert r[j] == w[j - 1];
          } else {
            assert r[i] == w[i - 1] && r[j] == w[j - 1];
          }
        }
      }
    }
  }

  lemma {:induction false} NoDupAppend(sel: seq<Id>, id: Id)
    requires NoDup(sel)
    requires id !in sel
    ensures NoDup(sel + [id])
  {
    var r := sel + [id];
    forall i, j | 0 <= i < j < |r| ensures r[i] != r[j] {
      if j == |sel| {
        assert r[i] == sel[i];
      } else {
        assert r[i] == sel[i] && r[j] == sel[j];
      }
    }
  }

  /** The document with every element whose id is in `gone` taken out. */
  function RemoveIds(d: Doc, gone: set<Id>): (r: Doc)
    ensures forall e :: e in r <==> e in d && e.id !in gone
    ensures Ids(r) == Ids(d) - gone
    decreases |d|
  {
    if |d| == 0 then []
    else
      IdsCons(d);
      var tail := RemoveIds(d[1..], gone);
      if d[0].id in gone then tail
      else IdsCons([d[0]] + tail); assert ([d[0]] + tail)[1..] == tail; [d[0]] + tail
  }

  /** Removal is a filter: it distributes over concatenation, so the
      surviving elements keep their document order. */
  lemma {:induction false} RemoveIdsAppend(a: Doc, b: Doc, gone: set<Id>)
    ensures RemoveIds(a + b, gone) == RemoveIds(a, gone) + RemoveIds(b, gone)
    decreases |a|
  {
    if |a| > 0 {
      assert (a + b)[0] == a[0];
      assert (a + b)[1..] == a[1..] + b;
      RemoveIdsAppend(a[1..], b, gone);
    } else {
      assert a + b == b;
    }
  }

  lemma UniqueTail(d: Doc)
    requires |d| > 0 && UniqueIds(d)
    ensures UniqueIds(d[1..])
    ensures d[0].id !in Ids(d[1..])
  {
    var rest := d[1..];
    forall i, j | 0 <= i < j < |rest| ensures rest[i].id != rest[j].id {
      assert rest[i] == d[i + 1] && rest[j] == d[j + 1];
    }
    forall e | e in rest ensures e.id != d[0].id {
      var j :| 0 <= j < |rest| && rest[j] == e;
      assert rest[j] == d[j + 1];
    }
  }

  lemma RemoveIdsCons(d: Doc, gone: set<Id>)
    requires |d| > 0
    ensures d[0].id in gone ==> RemoveIds(d, gone) == RemoveIds(d[1..], gone)
    ensures d[0].id !in gone ==> RemoveIds(d, gone) == [d[0]] + RemoveIds(d[1..], gone)
  {
  }

  /** With unique ids, removal takes out exactly one element per removed id
      that is present. */
  lemma {:induction false} RemoveIdsCount(d: Doc, gone: set<Id>)
    requires UniqueIds(d)
    ensures |RemoveIds(d, gone)| == |d| - |gone * Ids(d)|
    decreases |d|
  {
    if |d| == 0 {
      assert gone * Ids(d) == {};
    } else {
      var rest := d[1..];
      UniqueTail(d);
      RemoveIdsCount(rest, gone);
      IdsCons(d);
      RemoveIdsCons(d, gone);
      var x := d[0].id;
      if x in gone {
        CardAddOne(gone * Ids(rest), x);
        assert gone * Ids(d) == {x} + gone * Ids(rest);
      } else {
        assert gone * Ids(d) == gone * Ids(rest);
      }
    }
  }

  lemma CardAddOne<T>(a: set<T>, x: T)
    requires x !in a
    ensures |{x} + a| == |a| + 1
  {
  }

  /** A selection without repeats names as many ids as it has entries. */
  lemma {:induction false} NoDupMembers<T>(s: seq<T>)
    requires NoDup(s)
    ensures |Members(s)| == |s|
    decreases |s|
  {
    if |s| > 0 {
      var rest := s[1..];
      assert NoDup(rest);
      NoDupMembers(rest);
      assert s[0] !in rest by {
        forall j | 0 <= j < |rest| ensures rest[j] != s[0] {
          assert rest[j] == s[j + 1];
        }
      }
      assert s == [s[0]] + rest;
      assert Members(s) == {s[0]} + Members(rest);
    }
  }
}
