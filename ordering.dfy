/** Reordering the root list by drag and drop (App.tsx:86-98) and the
    `arrayMove` helper it hands the two indices to. */
module Ordering {
  import opened Types
  import opened Tree

  /** The list without its element at index i. */
  function RemoveAt<T>(s: seq<T>, i: int): (r: seq<T>)
    requires 0 <= i < |s|
    ensures |r| == |s| - 1
    ensures forall k :: 0 <= k < |r| ==> r[k] == if k < i then s[k] else s[k + 1]
  {
    s[..i] + s[i + 1..]
  }

  /** `arrayMove(items, from, to)`: take the element at `from` out, then put
      it back in so that it ends up at index `to`. */
  function ArrayMove<T>(s: seq<T>, from: int, to: int): (r: seq<T>)
    requires 0 <= from < |s| && 0 <= to < |s|
    ensures |r| == |s|
    ensures r[to] == s[from]
    ensures RemoveAt(r, to) == RemoveAt(s, from)
    ensures multiset(r) == multiset(s)
  {
    var x := s[from];
    var rest := s[..from] + s[from + 1..];
    var r := rest[..to] + [x] + rest[to..];
    assert r[..to] == rest[..to] && r[to + 1..] == rest[to..];
    assert rest[..to] + rest[to..] == rest;
    assert s[..from] + [x] + s[from + 1..] == s;
    MultisetAround(rest[..to], x, rest[to..]);
    MultisetAround(s[..from], x, s[from + 1..]);
    r
  }

  lemma MultisetAround<T>(a: seq<T>, x: T, c: seq<T>)
    ensures multiset(a + [x] + c) == multiset(a + c) + multiset{x}
  {
    assert multiset(a + [x] + c) == multiset(a) + multiset([x]) + multiset(c);
    assert multiset(a + c) == multiset(a) + multiset(c);
  }

  /** Where each element ends up: the elements between the two indices
      shift by one towards `from`, the others stay. */
  lemma ArrayMoveShift<T>(s: seq<T>, from: int, to: int, k: int)
    requires 0 <= from < |s| && 0 <= to < |s| && 0 <= k < |s|
    ensures ArrayMove(s, from, to)[k] ==
      if k == to then s[from]
      else if from < to && from <= k < to then s[k + 1]
      else if to < from && to < k <= from then s[k - 1]
      else s[k]
  {
    var r := ArrayMove(s, from, to);
    if k != to {
      var j := if k < to then k else k - 1;
      assert RemoveAt(r, to)[j] == r[k];
      assert RemoveAt(s, from)[j] == r[k];
    }
  }

  /** Moving back by index undoes a move. */
  lemma ArrayMoveInverse<T>(s: seq<T>, from: int, to: int)
    requires 0 <= from < |s| && 0 <= to < |s|
    ensures ArrayMove(ArrayMove(s, from, to), to, from) == s
  {
    var r := ArrayMove(s, from, to);
    var back := ArrayMove(r, to, from);
    assert RemoveAt(back, from) == RemoveAt(s, from);
    forall k | 0 <= k < |s| ensures back[k] == s[k] {
      if k != from {
        var j := if k < from then k else k - 1;
        assert RemoveAt(back, from)[j] == back[k];
        assert RemoveAt(s, from)[j] == s[k];
      }
    }
  }

  /** A block list keeps its ids, as a multiset, under any arrayMove. */
  lemma ArrayMoveIds(s: seq<Block>, from: int, to: int)
    requires 0 <= from < |s| && 0 <= to < |s|
    ensures multiset(Ids(ArrayMove(s, from, to))) == multiset(Ids(s))
  {
    var x := s[from];
    var rest := s[..from] + s[from + 1..];
    IdsTakeOut(s, from);
    IdsPutIn(rest, x, to);
    assert ArrayMove(s, from, to) == rest[..to] + [x] + rest[to..];
  }

  lemma IdsTakeOut(s: seq<Block>, i: int)
    requires 0 <= i < |s|
    ensures multiset(Ids(s)) == multiset(Ids(s[..i] + s[i + 1..])) + multiset(IdsOf(s[i]))
  {
    Reassemble(s, i);
    IdsAround(s[..i], s[i], s[i + 1..]);
  }

  lemma Reassemble<T>(s: seq<T>, i: int)
    requires 0 <= i < |s|
    ensures s[..i] + [s[i]] + s[i + 1..] == s
  {
  }

  lemma IdsPutIn(s: seq<Block>, x: Block, i: int)
    requires 0 <= i <= |s|
    ensures multiset(Ids(s[..i] + [x] + s[i..])) == multiset(Ids(s)) + multiset(IdsOf(x))
  {
    assert s == s[..i] + s[i..];
    IdsAround(s[..i], x, s[i..]);
  }

  lemma IdsAround(a: seq<Block>, x: Block, c: seq<Block>)
    ensures multiset(Ids(a + [x] + c)) == multiset(Ids(a + c)) + multiset(IdsOf(x))
  {
    IdsConcat(a + [x], c);
    IdsConcat(a, [x]);
    IdsConcat(a, c);
    assert Ids([x]) == IdsOf(x) + Ids([]);
  }

  /** `handleDragEnd`: nothing happens without a drop target, when a block
      is dropped on itself, or when either id is not a root block's;
      otherwise the dragged block moves to the drop target's index. */
  function DragEnd(items: seq<Block>, activeId: string, overId: Option<string>): (r: seq<Block>)
    ensures (|| overId.None? || overId.value == activeId
             || IndexOf(items, activeId) < 0 || IndexOf(items, overId.value) < 0) ==> r == items
    ensures |r| == |items| && multiset(r) == multiset(items)
    ensures (&& overId.Some? && overId.value != activeId
             && IndexOf(items, activeId) >= 0 && IndexOf(items, overId.value) >= 0) ==>
           var from, to := IndexOf(items, activeId), IndexOf(items, overId.value);
           && r[to] == items[from] && r[to].id == activeId
           && RemoveAt(r, to) == RemoveAt(items, from)
  {
    if overId.Some? && activeId != overId.value then
      var oldIndex := IndexOf(items, activeId);
      var newIndex := IndexOf(items, overId.value);
      if oldIndex != -1 && newIndex != -1 then ArrayMove(items, oldIndex, newIndex)
      else items
    else items
  }

  /** A drop never adds, loses or duplicates an id of the tree. */
  lemma DragEndIds(items: seq<Block>, activeId: string, overId: Option<string>)
    ensures multiset(Ids(DragEnd(items, activeId, overId))) == multiset(Ids(items))
  {
    if overId.Some? && activeId != overId.value {
      var from, to := IndexOf(items, activeId), IndexOf(items, overId.value);
      if from != -1 && to != -1 {
        ArrayMoveIds(items, from, to);
      }
    }
  }

  /** Dropping a onto c and then c onto a does not restore the root order:
      from [a, b, c] the first move gives [b, c, a] and the second [b, a, c]. */
  lemma DragBackDoesNotRestore()
    ensures var items := [Sample("a"), Sample("b"), Sample("c")];
      DragEnd(DragEnd(items, "a", Some("c")), "c", Some("a")) != items
  {
    var items := [Sample("a"), Sample("b"), Sample("c")];
    assert IndexOf(items, "a") == 0 && IndexOf(items, "c") == 2;
    var once := ArrayMove(items, 0, 2);
    assert DragEnd(items, "a", Some("c")) == once;
    ArrayMoveShift(items, 0, 2, 0);
    ArrayMoveShift(items, 0, 2, 1);
    assert once[0].id == "b" && once[1].id == "c" && once[2].id == "a";
    assert IndexOf(once, "c") == 1 && IndexOf(once, "a") == 2;
    var twice := ArrayMove(once, 1, 2);
    assert DragEnd(once, "c", Some("a")) == twice;
    ArrayMoveShift(once, 1, 2, 1);
    assert twice[1] == once[2];
    assert twice[1].id != items[1].id;
  }

  /** A paragraph with the given id, for the example above. */
  function Sample(id: string): (b: Block)
    ensures b.id == id
  {
    Block(id, Paragraph, NoAttributes.(content := Some("")), NoInner)
  }
}
