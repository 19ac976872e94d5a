/** What a block's canvas component computes (components/SortableBlock.tsx):
    the inline style, the code editor's row count, the grid of a Columns
    container, and the callbacks through which a container edits its own
    children and hands the new list to `updateInnerBlocks`. */
module SortableBlock {
  import opened Types
  import opened Tree
  import opened Engine
  import opened Text
  import opened Fresh

  // ---------------------------------------------------------------------
  // Style strings (SortableBlock.tsx:103-108)

  /** `v ? `${v}px` : undefined`: a pixel length for a set, non-zero
      number; 0 is falsy and gives none, like an absent value. */
  function PxValue(v: Option<int>): (r: Option<string>)
    ensures r.None? <==> v.None? || v.value == 0
    ensures r.Some? ==> |r.value| >= 3 && r.value[|r.value| - 2..] == "px"
  {
    if v.None? || v.value == 0 then None else Some(IntToString(v.value) + "px")
  }

  /** The number in front of the unit reads back as the value. */
  lemma PxValueRoundTrip(v: Option<int>)
    requires PxValue(v).Some?
    ensures var s := PxValue(v).value; ParseInt(s[..|s| - 2]) == v.value
  {
    var s := PxValue(v).value;
    assert s[..|s| - 2] == IntToString(v.value);
    IntRoundTrip(v.value);
  }

  /** The inline style of a block's content area. */
  datatype BlockStyle = BlockStyle(
    backgroundColor: Option<string>,
    color: Option<string>,
    padding: Option<string>,
    borderRadius: Option<string>)

  function StyleOf(a: Attributes): (r: BlockStyle)
    ensures r.backgroundColor == a.backgroundColor && r.color == a.textColor
    ensures r.padding.Some? <==> a.padding.Some? && a.padding.value != 0
    ensures r.borderRadius.Some? <==> a.borderRadius.Some? && a.borderRadius.value != 0
    ensures r.padding.Some? ==> r.padding.value == IntToString(a.padding.value) + "px"
    ensures r.borderRadius.Some? ==> r.borderRadius.value == IntToString(a.borderRadius.value) + "px"
  {
    BlockStyle(a.backgroundColor, a.textColor, PxValue(a.padding), PxValue(a.borderRadius))
  }

  // ---------------------------------------------------------------------
  // Code block (SortableBlock.tsx:187)

  /** `Math.max(3, content?.split('\n').length || 3)`: one row per line, at
      least three, and three when there is no content. The split always
      has at least one piece, so the `|| 3` applies only to absent content. */
  function CodeRows(content: Option<string>): (r: int)
    ensures r >= 3
    ensures content.None? ==> r == 3
    ensures content.Some? ==> r == if CountChar(content.value, '\n') + 1 > 3 then CountChar(content.value, '\n') + 1 else 3
  {
    var lines := if content.None? then 0 else |Split(content.value, '\n')|;
    var n := if lines == 0 then 3 else lines;
    if n > 3 then n else 3
  }

  // ---------------------------------------------------------------------
  // Columns grid (SortableBlock.tsx:216-226)

  /** `columns || 2`: an absent or zero column count is 2. */
  function ColumnCount(a: Attributes): (n: int)
    ensures n != 0
    ensures a.columns.Some? && a.columns.value != 0 ==> n == a.columns.value
    ensures a.columns.None? || a.columns.value == 0 ==> n == 2
  {
    if a.columns.None? || a.columns.value == 0 then 2 else a.columns.value
  }

  /** The CSS `grid-template-columns` of a container: a fixed ratio for the
      four named layouts, otherwise as many equal tracks as columns. The
      template starts as the equal one and each matching layout test
      overwrites it. */
  method GridTemplate(a: Attributes) returns (t: string)
    ensures a.layout == Some(Split70_30) ==> t == "7fr 3fr"
    ensures a.layout == Some(Split30_70) ==> t == "3fr 7fr"
    ensures a.layout == Some(Split25_50_25) ==> t == "1fr 2fr 1fr"
    ensures a.layout == Some(WideCenter) ==> t == "1fr 3fr 1fr"
    ensures a.layout.None? || a.layout == Some(Equal) ==>
      t == "repeat(" + IntToString(ColumnCount(a)) + ", 1fr)"
  {
    var columnCount := ColumnCount(a);
    var layout := if a.layout.None? then Equal else a.layout.value;
    t := "repeat(" + IntToString(columnCount) + ", 1fr)";
    if layout == Split70_30 { t := "7fr 3fr"; }
    if layout == Split30_70 { t := "3fr 7fr"; }
    if layout == Split25_50_25 { t := "1fr 2fr 1fr"; }
    if layout == WideCenter { t := "1fr 3fr 1fr"; }
  }

  /** An equal-track template names its column count: templates for two
      different counts differ. */
  lemma EqualTemplatesDiffer(m: int, n: int)
    requires m != n
    ensures "repeat(" + IntToString(m) + ", 1fr)" != "repeat(" + IntToString(n) + ", 1fr)"
  {
    var p, q := IntToString(m), IntToString(n);
    if "repeat(" + p + ", 1fr)" == "repeat(" + q + ", 1fr)" {
      var s := "repeat(" + p + ", 1fr)";
      assert |p| == |q|;
      assert p == s[7..7 + |p|] && q == s[7..7 + |q|];
      IntToStringInjective(m, n);
    }
  }

  /** `alignMap[verticalAlign || 'start']`. */
  function AlignItems(v: Option<VerticalAlign>): (r: string)
    ensures r == "flex-start" <==> v.None? || v == Some(Start)
    ensures r == "center" <==> v == Some(Center)
    ensures r == "flex-end" <==> v == Some(End)
  {
    var vAlign := if v.None? then Start else v.value;
    match vAlign
    case Start => "flex-start"
    case Center => "center"
    case End => "flex-end"
  }

  // ---------------------------------------------------------------------
  // A container's own children (SortableBlock.tsx:123-133, 247-265)

  /** `block.innerBlocks || []`. */
  function Children(b: Block): (r: seq<Block>)
    ensures b.innerBlocks.HasInner? ==> r == b.innerBlocks.blocks
    ensures b.innerBlocks.NoInner? ==> r == []
  {
    match b.innerBlocks case NoInner => [] case HasInner(kids) => kids
  }

  /** The update callback: the patch is merged into each direct child with
      the id; there is no list to hand on when the container has none. */
  function InnerUpdate(b: Block, id: string, patch: Attributes): (r: Option<seq<Block>>)
    ensures r.None? <==> b.innerBlocks.NoInner?
    ensures r.Some? ==> |r.value| == |Children(b)| && Ids(r.value) == Ids(Children(b))
    ensures r.Some? ==> forall k :: 0 <= k < |r.value| ==>
      var before := Children(b)[k];
      && r.value[k].id == before.id && r.value[k].blockType == before.blockType
      && r.value[k].innerBlocks == before.innerBlocks
      && r.value[k].attributes == if before.id == id then Merge(before.attributes, patch) else before.attributes
  {
    match b.innerBlocks
    case NoInner => None
    case HasInner(kids) => Some(MergeChildren(kids, id, patch))
  }

  /** `kids.map(b => b.id === id ? {...b, attributes: {...b.attributes, ...patch}} : b)`. */
  function MergeChildren(kids: seq<Block>, id: string, patch: Attributes): (r: seq<Block>)
    ensures |r| == |kids| && Ids(r) == Ids(kids)
    ensures forall k :: 0 <= k < |kids| ==>
      r[k] == if kids[k].id == id then kids[k].(attributes := Merge(kids[k].attributes, patch)) else kids[k]
  {
    if kids == [] then []
    else
      var first := if kids[0].id == id then kids[0].(attributes := Merge(kids[0].attributes, patch)) else kids[0];
      var r := [first] + MergeChildren(kids[1..], id, patch);
      assert r[0] == first && r[1..] == MergeChildren(kids[1..], id, patch);
      assert forall k :: 1 <= k < |kids| ==> kids[k] == kids[1..][k - 1] && r[k] == r[1..][k - 1];
      assert IdsOf(first) == IdsOf(kids[0]);
      r
  }

  /** Merging into the direct children is the tree-wide update when the
      children's subtrees do not hold the id below their own root. */
  lemma {:induction false} MergeChildrenIsUpdate(kids: seq<Block>, id: string, patch: Attributes)
    requires forall k :: 0 <= k < |kids| && kids[k].id != id ==> id !in IdsOf(kids[k])
    ensures MergeChildren(kids, id, patch) == UpdateBlocks(kids, id, patch)
  {
    if kids != [] {
      var r, u := MergeChildren(kids, id, patch), UpdateBlocks(kids, id, patch);
      forall k | 0 <= k < |kids[1..]| && kids[1..][k].id != id ensures id !in IdsOf(kids[1..][k]) {
        assert kids[1..][k] == kids[k + 1];
      }
      MergeChildrenIsUpdate(kids[1..], id, patch);
      assert u[0] == UpdateOne(kids[0], id, patch);
      assert r[0] == u[0];
      assert r[1..] == MergeChildren(kids[1..], id, patch);
      assert u[1..] == UpdateBlocks(kids[1..], id, patch);
      assert r == [r[0]] + r[1..] && u == [u[0]] + u[1..];
    }
  }

  /** The remove callback: every direct child with the id goes, the others
      stay in order; there is no list when the container has none. */
  function InnerRemove(b: Block, id: string): (r: Option<seq<Block>>)
    ensures r.None? <==> b.innerBlocks.NoInner?
    ensures r.Some? ==> forall k :: 0 <= k < |r.value| ==> r.value[k].id != id
    ensures r.Some? ==> forall c :: c in Children(b) && c.id != id ==> c in r.value
    ensures r.Some? ==> forall c :: c in r.value ==> c in Children(b)
    ensures r.Some? ==> multiset(Ids(r.value)) <= multiset(Ids(Children(b)))
    ensures r.Some? ==> r.value == DropChildren(Children(b), id)
  {
    match b.innerBlocks
    case NoInner => None
    case HasInner(kids) =>
      DropChildrenMembers(kids, id);
      DropChildrenShrinks(kids, id);
      Some(DropChildren(kids, id))
  }

  /** `kids.filter(b => b.id !== id)`. */
  function DropChildren(kids: seq<Block>, id: string): (r: seq<Block>)
    ensures forall k :: 0 <= k < |r| ==> r[k].id != id
  {
    if kids == [] then []
    else (if kids[0].id == id then [] else [kids[0]]) + DropChildren(kids[1..], id)
  }

  /** The filter keeps exactly the children without the id. */
  lemma {:induction false} DropChildrenMembers(kids: seq<Block>, id: string)
    ensures forall c :: c in DropChildren(kids, id) <==> c in kids && c.id != id
  {
    if kids != [] {
      DropChildrenMembers(kids[1..], id);
      assert forall c :: c in kids <==> c == kids[0] || c in kids[1..];
    }
  }

  /** The filter adds no id. */
  lemma {:induction false} DropChildrenShrinks(kids: seq<Block>, id: string)
    ensures multiset(Ids(DropChildren(kids, id))) <= multiset(Ids(kids))
  {
    if kids != [] {
      DropChildrenShrinks(kids[1..], id);
      var head := if kids[0].id == id then [] else [kids[0]];
      var rest := DropChildren(kids[1..], id);
      IdsConcat(head, rest);
      assert Ids(kids) == IdsOf(kids[0]) + Ids(kids[1..]);
      assert Ids([kids[0]]) == IdsOf(kids[0]) + Ids([]);
    }
  }

  /** One step of the filter: the first child, kept or not, then the
      filtered rest. */
  lemma DropChildrenStep(kids: seq<Block>, id: string)
    requires kids != []
    ensures DropChildren(kids, id) == (if kids[0].id == id then [] else [kids[0]]) + DropChildren(kids[1..], id)
  {
  }

  /** Filtering keeps order: a joined list filters to the joined filtered
      parts. */
  lemma {:induction false} DropChildrenConcat(a: seq<Block>, b: seq<Block>, id: string)
    ensures DropChildren(a + b, id) == DropChildren(a, id) + DropChildren(b, id)
  {
    var ab := a + b;
    if a == [] {
      assert ab == b;
    } else {
      assert ab[0] == a[0] && ab[1..] == a[1..] + b;
      DropChildrenConcat(a[1..], b, id);
      DropChildrenStep(ab, id);
      DropChildrenStep(a, id);
    }
  }

  /** A single child is kept exactly when its id differs. With
      DropChildrenConcat this fixes the filter's result, order and
      multiplicity included. */
  lemma DropChildrenOne(c: Block, id: string)
    ensures DropChildren([c], id) == if c.id == id then [] else [c]
  {
    assert [c][1..] == [];
  }

  /** Filtering the direct children is the tree-wide removal when the other
      children's subtrees do not hold the id. */
  lemma {:induction false} DropChildrenIsRemove(kids: seq<Block>, id: string)
    requires forall k :: 0 <= k < |kids| && kids[k].id != id ==> id !in IdsOf(kids[k])
    ensures DropChildren(kids, id) == RemoveBlocks(kids, id)
  {
    if kids != [] {
      forall k | 0 <= k < |kids[1..]| && kids[1..][k].id != id ensures id !in IdsOf(kids[1..][k]) {
        assert kids[1..][k] == kids[k + 1];
      }
      DropChildrenIsRemove(kids[1..], id);
    }
  }

  /** The duplicate callback as written: the first direct child with the
      id is copied with one new id, and the copy is appended at the end of
      the list. The copy keeps the original's children, ids included. */
  function InnerDuplicateShallow(b: Block, id: string, newId: string): (r: Option<seq<Block>>)
    ensures r.None? <==> b.innerBlocks.NoInner? || IndexOf(Children(b), id) < 0
    ensures r.Some? ==>
      var k := IndexOf(Children(b), id);
      && |r.value| == |Children(b)| + 1 && r.value[..|Children(b)|] == Children(b)
      && r.value[|Children(b)|] == Children(b)[k].(id := newId)
  {
    match b.innerBlocks
    case NoInner => None
    case HasInner(kids) =>
      var k := IndexOf(kids, id);
      if k < 0 then None
      else
        var r := kids + [kids[k].(id := newId)];
        assert r[..|kids|] == kids;
        Some(r)
  }

  /** Duplicating a child that has children of its own repeats their ids:
      the grandchildren are in the list twice, under the original and under
      the copy. */
  lemma ShallowDuplicateRepeatsIds(b: Block, id: string, newId: string)
    requires InnerDuplicateShallow(b, id, newId).Some?
    requires var x := Children(b)[IndexOf(Children(b), id)];
      x.innerBlocks.HasInner? && x.innerBlocks.blocks != []
    ensures !Distinct(Ids(InnerDuplicateShallow(b, id, newId).value))
  {
    var kids := Children(b);
    var k := IndexOf(kids, id);
    var x := kids[k];
    var x' := x.(id := newId);
    var r := InnerDuplicateShallow(b, id, newId).value;
    assert r == kids + [x'];
    IdsConcat(kids, [x']);
    assert Ids([x']) == IdsOf(x');
    var g := x.innerBlocks.blocks[0].id;
    assert g in Ids(x.innerBlocks.blocks) by {
      RootIdIn(x.innerBlocks.blocks, 0);
    }
    assert IdsOf(x) == [x.id] + Ids(x.innerBlocks.blocks);
    assert IdsOf(x') == [newId] + Ids(x.innerBlocks.blocks);
    RootIdIn(kids, k);
    assert g in Ids(kids) && g in IdsOf(x');
    DistinctConcat(Ids(kids), IdsOf(x'));
  }

  /** The duplicate callback as intended: the appended copy is a deep copy
      with fresh ids throughout, none of them among `avoid`. */
  function InnerDuplicate(b: Block, id: string, avoid: seq<string>): (r: Option<seq<Block>>)
    ensures r.None? <==> b.innerBlocks.NoInner? || IndexOf(Children(b), id) < 0
    ensures r.Some? ==> |r.value| == |Children(b)| + 1 && r.value[..|Children(b)|] == Children(b)
    ensures r.Some? ==>
      var k := IndexOf(Children(b), id);
      var copy := r.value[|Children(b)|];
      && ToPattern(copy) == ToPattern(Children(b)[k])
      && Distinct(IdsOf(copy)) && (forall x :: x in IdsOf(copy) ==> x !in avoid)
  {
    match b.innerBlocks
    case NoInner => None
    case HasInner(kids) =>
      var k := IndexOf(kids, id);
      if k < 0 then None
      else
        var original := kids[k];
        var copy := CreateCopy(original, FreshIds("inner-copy-", avoid, |IdsOf(original)|));
        var r := kids + [copy];
        assert r[..|kids|] == kids && r[|kids|] == copy;
        Some(r)
  }

  /** For a child without children of its own, which is every child the
      canvas can create, the deep copy is the shallow one. */
  lemma DuplicateOfLeafIsShallow(b: Block, id: string, avoid: seq<string>)
    requires b.innerBlocks.HasInner? && IndexOf(Children(b), id) >= 0
    requires Children(b)[IndexOf(Children(b), id)].innerBlocks.NoInner?
    ensures InnerDuplicate(b, id, avoid) == InnerDuplicateShallow(b, id, FreshIds("inner-copy-", avoid, 1)[0])
  {
  }

  /** The container's children ids after the corrected duplicate: the old
      ones plus the copy's. */
  lemma InnerDuplicateIds(b: Block, id: string, avoid: seq<string>)
    requires InnerDuplicate(b, id, avoid).Some?
    ensures var r := InnerDuplicate(b, id, avoid).value;
      Ids(r) == Ids(Children(b)) + IdsOf(r[|Children(b)|])
  {
    var r := InnerDuplicate(b, id, avoid).value;
    var kids := Children(b);
    assert r == kids + [r[|kids|]];
    IdsConcat(kids, [r[|kids|]]);
    assert Ids([r[|kids|]]) == IdsOf(r[|kids|]);
  }

  /** The Paragraph `addInnerBlock` creates. */
  function NewInnerParagraph(id: string): (r: Block)
    ensures r.id == id && r.blockType == Paragraph && r.innerBlocks.NoInner?
    ensures r.attributes == NoAttributes.(content := Some("<p>Nội dung mới trong cột...</p>"))
  {
    Block(id, Paragraph, NoAttributes.(content := Some("<p>Nội dung mới trong cột...</p>")), NoInner)
  }

  /** `addInnerBlock`: the container's children (none when it has no list)
      followed by one new Paragraph. */
  function AddInnerBlock(b: Block, newId: string): (r: seq<Block>)
    ensures |r| == |Children(b)| + 1
    ensures r[..|Children(b)|] == Children(b)
    ensures r[|Children(b)|] == NewInnerParagraph(newId)
    ensures Ids(r) == Ids(Children(b)) + [newId]
  {
    var r := Children(b) + [NewInnerParagraph(newId)];
    assert r[..|Children(b)|] == Children(b);
    IdsConcat(Children(b), [NewInnerParagraph(newId)]);
    assert IdsOf(NewInnerParagraph(newId)) == [newId];
    assert Ids([NewInnerParagraph(newId)]) == IdsOf(NewInnerParagraph(newId)) + Ids([]);
    r
  }

  /** The add button is on offer only while the container has no list or
      fewer than 12 children. */
  function CanAddInner(b: Block): (r: bool)
    ensures r <==> |Children(b)| < 12
  {
    b.innerBlocks.NoInner? || |b.innerBlocks.blocks| < 12
  }

  /** Adding through the button never takes a container past 12 children. */
  lemma AddInnerCap(b: Block, newId: string)
    requires CanAddInner(b)
    ensures |AddInnerBlock(b, newId)| <= 12
  {
  }

  /** The duplicate callback has no such bound: a container with 12
      children gets a 13th. */
  lemma DuplicateIgnoresCap(b: Block, id: string, avoid: seq<string>)
    requires |Children(b)| == 12 && InnerDuplicate(b, id, avoid).Some?
    ensures !CanAddInner(b) && |InnerDuplicate(b, id, avoid).value| == 13
  {
  }

  // ---------------------------------------------------------------------
  // The two layers agree (SortableBlock.tsx:247-254 and App.tsx:161-196)

  /** Where the id sits in a root container's child list, the id is in no
      other root block and in no other child, and it is not the container's. */
  lemma DirectChildFacts(bs: seq<Block>, i: int, id: string)
    requires UniqueIds(bs) && 0 <= i < |bs| && bs[i].innerBlocks.HasInner?
    requires IndexOf(Children(bs[i]), id) >= 0
    ensures bs[i].id != id
    ensures forall j :: 0 <= j < |bs| && j != i ==> id !in IdsOf(bs[j])
    ensures var kids := Children(bs[i]);
      forall k :: 0 <= k < |kids| && kids[k].id != id ==> id !in IdsOf(kids[k])
  {
    var kids := Children(bs[i]);
    var k := IndexOf(kids, id);
    RootUnique(bs, i);
    ChildrenUnique(bs[i]);
    RootIdIn(kids, k);
    assert IdsOf(bs[i]) == [bs[i].id] + Ids(kids);
    assert id in IdsOf(bs[i]);
    forall j | 0 <= j < |bs| && j != i ensures id !in IdsOf(bs[j]) {
      RootsDisjoint(bs, i, j);
    }
    forall k' | 0 <= k' < |kids| && kids[k'].id != id ensures id !in IdsOf(kids[k']) {
      assert id == IdsOf(kids[k])[0] && id in IdsOf(kids[k]);
      RootsDisjoint(kids, k, k');
    }
  }

  /** Editing a direct child of a root container through the container's
      callback is the same as through `updateBlock`. */
  lemma InnerUpdateAgrees(bs: seq<Block>, i: int, id: string, patch: Attributes)
    requires UniqueIds(bs) && 0 <= i < |bs| && bs[i].innerBlocks.HasInner?
    requires IndexOf(Children(bs[i]), id) >= 0
    ensures ReplaceInner(bs, bs[i].id, InnerUpdate(bs[i], id, patch).value) == UpdateBlocks(bs, id, patch)
  {
    var kids := Children(bs[i]);
    DirectChildFacts(bs, i, id);
    UpdateAtRoot(bs, i, id, patch);
    MergeChildrenIsUpdate(kids, id, patch);
    ReplaceInnerAt(bs, i, MergeChildren(kids, id, patch));
  }

  /** Removing a direct child of a root container through the container's
      callback is the same as through `removeBlock`. */
  lemma InnerRemoveAgrees(bs: seq<Block>, i: int, id: string)
    requires UniqueIds(bs) && 0 <= i < |bs| && bs[i].innerBlocks.HasInner?
    requires IndexOf(Children(bs[i]), id) >= 0
    ensures ReplaceInner(bs, bs[i].id, InnerRemove(bs[i], id).value) == RemoveBlocks(bs, id)
  {
    var kids := Children(bs[i]);
    DirectChildFacts(bs, i, id);
    RemoveAtRoot(bs, i, id);
    DropChildrenIsRemove(kids, id);
    ReplaceInnerAt(bs, i, DropChildren(kids, id));
  }

  /** A node two levels down is out of the container's reach: its update
      callback hands back the children unchanged. */
  lemma InnerUpdateMissesGrandchildren(b: Block, id: string, patch: Attributes)
    requires b.innerBlocks.HasInner? && IndexOf(Children(b), id) < 0
    ensures InnerUpdate(b, id, patch) == Some(Children(b))
  {
    var kids := Children(b);
    var r := MergeChildren(kids, id, patch);
    assert forall k :: 0 <= k < |kids| ==> r[k] == kids[k];
    assert r == kids;
  }
}
