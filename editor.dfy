/** The editor's state and the operations that replace it (App.tsx): the
    root block list and the selected id, the handlers wired to the canvas,
    the sidebar and the inspector, and the callbacks a root Columns block
    passes down to its children. */
module Editing {
  import opened Types
  import opened Tree
  import opened Lookup
  import opened Engine
  import opened Ordering
  import opened Fresh
  import opened SortableBlock
  import opened Shape

  /** The document the editor opens with (App.tsx:31-59): a heading and a
      70/30 Columns block holding a paragraph and an image. */
  function InitialBlocks(): (r: seq<Block>)
    ensures |r| == 2 && r[0].blockType == Heading && r[1].blockType == Columns
    ensures r[1].attributes.layout == Some(Split70_30) && |Children(r[1])| == 2
  {
    [InitialHeading(), InitialColumns()]
  }

  function InitialHeading(): Block {
    Block("initial-1", Heading,
      NoAttributes.(level := Some(2), content := Some("Thiết kế Layout Chuyên Nghiệp")), NoInner)
  }

  function InitialColumns(): Block {
    Block("initial-2", Columns,
      NoAttributes.(columns := Some(2), gap := Some(32), layout := Some(Split70_30), verticalAlign := Some(Center)),
      HasInner([InitialParagraph(), InitialImage()]))
  }

  function InitialParagraph(): Block {
    Block("inner-1", Paragraph,
      NoAttributes.(
        content := Some("Cột này chiếm 70% chiều rộng. Bạn có thể thay đổi tỷ lệ trong phần Inspector bên phải."),
        backgroundColor := Some("#eff6ff"), padding := Some(24), borderRadius := Some(12)),
      NoInner)
  }

  function InitialImage(): Block {
    Block("inner-2", Image,
      NoAttributes.(url := Some("https://picsum.photos/400/300"), borderRadius := Some(12)), NoInner)
  }

  /** The ids of a list of childless blocks are their own ids. */
  lemma {:induction false} LeafIds(bs: seq<Block>)
    requires forall k :: 0 <= k < |bs| ==> bs[k].innerBlocks.NoInner?
    ensures Ids(bs) == seq(|bs|, k requires 0 <= k < |bs| => bs[k].id)
  {
    if bs != [] {
      LeafIds(bs[1..]);
      assert IdsOf(bs[0]) == [bs[0].id];
    }
  }

  /** The opening document's four ids, in pre-order. */
  lemma InitialIds()
    ensures Ids(InitialBlocks()) == ["initial-1", "initial-2", "inner-1", "inner-2"]
  {
    var kids := [InitialParagraph(), InitialImage()];
    LeafIds(kids);
    assert Ids(kids) == ["inner-1", "inner-2"];
    var c := InitialColumns();
    assert IdsOf(c) == ["initial-2"] + Ids(kids);
    var h := InitialHeading();
    assert IdsOf(h) == ["initial-1"];
    IdsConcat([h], [c]);
    assert Ids([h]) == IdsOf(h) + Ids([]);
    assert Ids([c]) == IdsOf(c) + Ids([]);
    assert [h] + [c] == InitialBlocks();
  }

  /** The opening document's ids are distinct. */
  lemma InitialIdsUnique()
    ensures UniqueIds(InitialBlocks())
  {
    InitialIds();
    var a, b, c, d := "initial-1", "initial-2", "inner-1", "inner-2";
    assert a[8] != b[8] && c[6] != d[6];
    assert a[2] != c[2] && a[2] != d[2] && b[2] != c[2] && b[2] != d[2];
    DistinctFour(a, b, c, d);
  }

  /** Four pairwise different ids form a duplicate-free list. */
  lemma DistinctFour(a: string, b: string, c: string, d: string)
    requires a != b && a != c && a != d && b != c && b != d && c != d
    ensures Distinct([a, b, c, d])
  {
    DistinctPairwise([a, b, c, d]);
  }

  /** Only the opening document's Columns block has children. */
  lemma InitialWellFormed()
    ensures WellFormed(InitialBlocks())
  {
    var h, c := InitialHeading(), InitialColumns();
    var kids := [InitialParagraph(), InitialImage()];
    WellFormedEach(kids);
    assert WellFormedBlock(c);
    WellFormedEach([h, c]);
  }

  /** The opening document's ids are distinct and only its Columns block
      has children. */
  lemma InitialBlocksValid()
    ensures UniqueIds(InitialBlocks())
    ensures WellFormed(InitialBlocks())
  {
    InitialIdsUnique();
    InitialWellFormed();
  }

  /** Multiset cancellation, one element at a time. */
  lemma CancelLe<T>(a: multiset<T>, b: multiset<T>, c: multiset<T>, l: multiset<T>)
    requires a + c == b + l && l <= c
    ensures a <= b
  {
    forall x ensures a[x] <= b[x] {
      assert (a + c)[x] == (b + l)[x];
    }
  }

  lemma CancelEq<T>(a: multiset<T>, b: multiset<T>, c: multiset<T>, e: multiset<T>)
    requires a + c == b + (c + e)
    ensures a == b + e
  {
    forall x ensures a[x] == (b + e)[x] {
      assert (a + c)[x] == (b + (c + e))[x];
    }
  }

  /** Adding ids that are distinct and new keeps a tree's ids unique. */
  lemma AddFreshKeepsUnique(before: seq<string>, added: seq<string>, after: seq<string>)
    requires Distinct(before) && Distinct(added) && (forall x :: x in added ==> x !in before)
    requires multiset(after) == multiset(before) + multiset(added)
    ensures Distinct(after)
  {
    DistinctConcat(before, added);
    assert multiset(before + added) == multiset(after);
  }

  /** Taking ids away keeps a tree's ids unique. */
  lemma ShrinkKeepsUnique(before: seq<string>, after: seq<string>)
    requires Distinct(before) && multiset(after) <= multiset(before)
    ensures Distinct(after)
  {
    forall x ensures multiset(after)[x] <= 1 {
      assert multiset(after)[x] <= multiset(before)[x];
    }
  }

  /** A root container's new child list with no id beyond its old one's
      keeps the tree's ids unique. */
  lemma ReplaceShrinkKeepsUnique(bs: seq<Block>, i: int, newInner: seq<Block>)
    requires UniqueIds(bs) && 0 <= i < |bs|
    requires multiset(Ids(newInner)) <= multiset(InnerIds(bs[i].innerBlocks))
    ensures UniqueIds(ReplaceInner(bs, bs[i].id, newInner))
  {
    var r := Ids(ReplaceInner(bs, bs[i].id, newInner));
    ReplaceInnerAt(bs, i, newInner);
    CancelLe(multiset(r), multiset(Ids(bs)), multiset(InnerIds(bs[i].innerBlocks)), multiset(Ids(newInner)));
    ShrinkKeepsUnique(Ids(bs), r);
  }

  /** A root container's new child list made of its old children and ids
      that are distinct and new keeps the tree's ids unique. */
  lemma ReplaceGrowKeepsUnique(bs: seq<Block>, i: int, newInner: seq<Block>, added: seq<string>)
    requires UniqueIds(bs) && 0 <= i < |bs|
    requires Distinct(added) && (forall x :: x in added ==> x !in Ids(bs))
    requires multiset(Ids(newInner)) == multiset(InnerIds(bs[i].innerBlocks)) + multiset(added)
    ensures UniqueIds(ReplaceInner(bs, bs[i].id, newInner))
  {
    var r := Ids(ReplaceInner(bs, bs[i].id, newInner));
    ReplaceInnerAt(bs, i, newInner);
    CancelEq(multiset(r), multiset(Ids(bs)), multiset(InnerIds(bs[i].innerBlocks)), multiset(added));
    AddFreshKeepsUnique(Ids(bs), added, r);
  }

  /** Blocks whose ids are distinct and new, appended to the root list,
      keep the tree's ids unique. */
  lemma AppendKeepsUnique(bs: seq<Block>, nbs: seq<Block>, added: seq<string>)
    requires UniqueIds(bs) && Ids(nbs) == added
    requires Distinct(added) && (forall x :: x in added ==> x !in Ids(bs))
    ensures UniqueIds(bs + nbs)
  {
    IdsConcat(bs, nbs);
    DistinctConcat(Ids(bs), added);
  }

  /** A new child with a fresh id under a root block keeps the tree's ids
      unique and lengthens that block's child list by one. */
  lemma AddInnerKeepsUnique(bs: seq<Block>, i: int, newId: string)
    requires UniqueIds(bs) && 0 <= i < |bs| && newId !in Ids(bs)
    ensures var r := ReplaceInner(bs, bs[i].id, AddInnerBlock(bs[i], newId));
      UniqueIds(r) && |Children(r[i])| == |Children(bs[i])| + 1
  {
    var children := AddInnerBlock(bs[i], newId);
    assert InnerIds(bs[i].innerBlocks) == Ids(Children(bs[i]));
    ReplaceGrowKeepsUnique(bs, i, children, [newId]);
    ReplaceInnerAt(bs, i, children);
  }

  class Editor {
    /** The root block list. */
    var blocks: seq<Block>
    /** The id the inspector shows, if any (`null` is None). */
    var selectedBlockId: Option<string>

    /** No two nodes of the document share an id, and only Columns blocks
      carry a child list. */
    ghost predicate Valid()
      reads this
    {
      UniqueIds(blocks) && WellFormed(blocks)
    }

    /** The opening state: the sample document, nothing selected. */
    constructor ()
      ensures blocks == InitialBlocks() && selectedBlockId == None
      ensures Valid()
    {
      blocks := InitialBlocks();
      selectedBlockId := None;
      InitialBlocksValid();
    }

    /** `exportSchema`: the document as saved (App.tsx:199). */
    function ExportSchema(): (s: EditorState)
      reads this
      ensures s.version == "1.2.0" && s.blocks == blocks
    {
      EditorState("1.2.0", blocks)
    }

    /** A click on a root block selects it, a click on the empty canvas
      clears the selection; the document is untouched. */
    method Select(id: Option<string>)
      modifies this
      ensures selectedBlockId == id && blocks == old(blocks)
      ensures old(Valid()) ==> Valid()
    {
      selectedBlockId := id;
    }

    /** `handleDragEnd`: the root list is reordered by DragEnd. */
    method HandleDragEnd(activeId: string, overId: Option<string>)
      modifies this
      ensures blocks == DragEnd(old(blocks), activeId, overId)
      ensures selectedBlockId == old(selectedBlockId)
      ensures old(Valid()) ==> Valid()
    {
      DragEndIds(blocks, activeId, overId);
      if Valid() {
        DragKeepsShape(blocks, activeId, overId);
      }
      blocks := DragEnd(blocks, activeId, overId);
    }

    /** `addBlock`: one new block with the kind's defaults and a fresh id
      at the end of the root list; it becomes the selection. */
    method AddBlock(t: BlockType)
      modifies this
      ensures |blocks| == |old(blocks)| + 1 && blocks[..|old(blocks)|] == old(blocks)
      ensures var nb := blocks[|old(blocks)|];
        && nb == NewBlock(t, nb.id) && nb.id !in Ids(old(blocks))
        && selectedBlockId == Some(nb.id)
      ensures old(Valid()) ==> Valid()
    {
      var id := FreshIds("block-", Ids(blocks), 1)[0];
      var nb := NewBlock(t, id);
      assert Ids([nb]) == IdsOf(nb) + Ids([]);
      if Valid() {
        AppendKeepsUnique(blocks, [nb], [id]);
        assert WellFormed([nb]) by {
          assert [nb][1..] == [];
        }
        WellFormedConcat(blocks, [nb]);
      }
      blocks := blocks + [nb];
      selectedBlockId := Some(id);
    }

    /** `duplicateBlock`: nothing happens when no node has the id; otherwise
      a deep copy of the node found, with fresh ids, is inserted after the
      original and becomes the selection. */
    method DuplicateBlock(id: string)
      modifies this
      ensures Find(old(blocks), id).None? ==>
        blocks == old(blocks) && selectedBlockId == old(selectedBlockId)
      ensures Find(old(blocks), id).Some? ==>
        var original := Find(old(blocks), id).value;
        var copy := CreateCopy(original, FreshIds("copy-", Ids(old(blocks)), |IdsOf(original)|));
        && blocks == InsertedAfter(old(blocks), id, copy)
        && selectedBlockId == Some(copy.id)
      ensures old(Valid()) ==> Valid()
    {
      var blockToCopy := FindBlockById(blocks, id);
      if blockToCopy.None? {
        return;
      }
      var original := blockToCopy.value;
      var ids := FreshIds("copy-", Ids(blocks), |IdsOf(original)|);
      var copy := CreateCopy(original, ids);
      var newBlocks := InsertAfter(blocks, id, copy);
      if Valid() {
        assert multiset(Ids(blocks))[id] == 1;
        InsertedIds(blocks, id, copy);
        AddFreshKeepsUnique(Ids(blocks), ids, Ids(newBlocks));
        FoundKeepsShape(blocks, id);
        CopyKeepsShape(original, ids);
        InsertedKeepsShape(blocks, id, copy);
      }
      blocks := newBlocks;
      selectedBlockId := Some(copy.id);
    }

    /** `addPattern`: one block per template, in order, with fresh ids at
      every depth, at the end of the root list; the first becomes the
      selection when there is one. The ids stay unique whatever the
      templates; the shape rule holds afterwards when the templates obey
      it too, as both sidebar templates do. */
    method AddPattern(p: Pattern)
      modifies this
      ensures blocks == old(blocks) + InstantiateAll(p.blocks, FreshIds("block-", Ids(old(blocks)), PatternsSize(p.blocks)))
      ensures ToPatterns(blocks[|old(blocks)|..]) == p.blocks
      ensures p.blocks != [] ==> selectedBlockId == Some(blocks[|old(blocks)|].id)
      ensures p.blocks == [] ==> selectedBlockId == old(selectedBlockId)
      ensures old(UniqueIds(blocks)) ==> UniqueIds(blocks)
      ensures old(Valid()) && PatternsWellFormed(p.blocks) ==> Valid()
    {
      var ids := FreshIds("block-", Ids(blocks), PatternsSize(p.blocks));
      var newBlocks := InstantiateAll(p.blocks, ids);
      if UniqueIds(blocks) {
        AppendKeepsUnique(blocks, newBlocks, ids);
      }
      if WellFormed(blocks) && PatternsWellFormed(p.blocks) {
        InstancesKeepShape(p.blocks, ids);
        WellFormedConcat(blocks, newBlocks);
      }
      assert (blocks + newBlocks)[|blocks|..] == newBlocks;
      blocks := blocks + newBlocks;
      if |newBlocks| > 0 {
        selectedBlockId := Some(newBlocks[0].id);
      }
    }

    /** `updateBlock`: the patch is merged into the block with the id. */
    method UpdateBlock(id: string, patch: Attributes)
      modifies this
      ensures blocks == UpdateBlocks(old(blocks), id, patch)
      ensures selectedBlockId == old(selectedBlockId)
      ensures old(Valid()) ==> Valid()
    {
      if Valid() {
        UpdateKeepsShape(blocks, id, patch);
      }
      blocks := UpdateBlocks(blocks, id, patch);
    }

    /** `removeBlock`: the block goes, with its subtree, wherever it is; the
      selection is cleared exactly when it was the removed id. */
    method RemoveBlock(id: string)
      modifies this
      ensures blocks == RemoveBlocks(old(blocks), id)
      ensures Find(blocks, id).None?
      ensures selectedBlockId == if old(selectedBlockId) == Some(id) then None else old(selectedBlockId)
      ensures old(Valid()) ==> Valid()
    {
      if Valid() {
        RemoveKeepsUnique(blocks, id);
        RemoveKeepsShape(blocks, id);
      }
      blocks := RemoveBlockRecursive(blocks, id);
      if selectedBlockId == Some(id) {
        selectedBlockId := None;
      }
    }

    /** `updateInnerBlocks`: every root block with the parent id gets the
      new child list. It trusts its caller: the shape rule survives when
      the new list obeys it and the parent is a Columns block, and whether
      ids stay unique depends on the list, so Valid is kept by the four
      container callbacks below rather than by this method alone. */
    method UpdateInnerBlocks(parentId: string, newInner: seq<Block>)
      modifies this
      ensures blocks == ReplaceInner(old(blocks), parentId, newInner)
      ensures selectedBlockId == old(selectedBlockId)
      ensures old(WellFormed(blocks)) && WellFormed(newInner)
        && (forall j :: 0 <= j < |old(blocks)| && old(blocks)[j].id == parentId ==> old(blocks)[j].blockType == Columns)
        ==> WellFormed(blocks)
    {
      if WellFormed(blocks) && WellFormed(newInner)
        && (forall j :: 0 <= j < |blocks| && blocks[j].id == parentId ==> blocks[j].blockType == Columns)
      {
        ReplaceInnerKeepsShape(blocks, parentId, newInner);
      }
      blocks := ReplaceInner(blocks, parentId, newInner);
    }

    /** The update callback of the root block at index i, for its child with
      the id (SortableBlock.tsx:247-250). For a direct child it is the
      tree-wide update. */
    method InnerUpdateAt(i: int, id: string, patch: Attributes)
      requires 0 <= i < |blocks|
      modifies this
      ensures var u := InnerUpdate(old(blocks)[i], id, patch);
        blocks == if u.Some? then ReplaceInner(old(blocks), old(blocks)[i].id, u.value) else old(blocks)
      ensures old(Valid()) && old(blocks)[i].innerBlocks.HasInner? && IndexOf(Children(old(blocks)[i]), id) >= 0 ==>
        blocks == UpdateBlocks(old(blocks), id, patch)
      ensures selectedBlockId == old(selectedBlockId)
      ensures old(Valid()) ==> Valid()
    {
      var parent := blocks[i];
      var updated := InnerUpdate(parent, id, patch);
      if updated.Some? {
        if Valid() {
          ReplaceShrinkKeepsUnique(blocks, i, updated.value);
          RootWellFormed(blocks, i);
          InnerUpdateKeepsShape(parent, id, patch);
          ChildListKeepsShape(blocks, i, updated.value);
          if IndexOf(Children(parent), id) >= 0 {
            InnerUpdateAgrees(blocks, i, id, patch);
          }
        }
        UpdateInnerBlocks(parent.id, updated.value);
      }
    }

    /** The remove callback of the root block at index i (SortableBlock.tsx:
      251-254). For a direct child it is the tree-wide removal; unlike
      `removeBlock` it leaves the selection alone. */
    method InnerRemoveAt(i: int, id: string)
      requires 0 <= i < |blocks|
      modifies this
      ensures var f := InnerRemove(old(blocks)[i], id);
        blocks == if f.Some? then ReplaceInner(old(blocks), old(blocks)[i].id, f.value) else old(blocks)
      ensures old(Valid()) && old(blocks)[i].innerBlocks.HasInner? && IndexOf(Children(old(blocks)[i]), id) >= 0 ==>
        blocks == RemoveBlocks(old(blocks), id)
      ensures selectedBlockId == old(selectedBlockId)
      ensures old(Valid()) ==> Valid()
    {
      var parent := blocks[i];
      var filtered := InnerRemove(parent, id);
      if filtered.Some? {
        if Valid() {
          ReplaceShrinkKeepsUnique(blocks, i, filtered.value);
          RootWellFormed(blocks, i);
          InnerRemoveKeepsShape(parent, id);
          ChildListKeepsShape(blocks, i, filtered.value);
          if IndexOf(Children(parent), id) >= 0 {
            InnerRemoveAgrees(blocks, i, id);
          }
        }
        UpdateInnerBlocks(parent.id, filtered.value);
      }
    }

    /** The duplicate callback of the root block at index i, corrected to a
      deep copy with fresh ids (SortableBlock.tsx:255-260): the copy goes
      at the end of the child list. */
    method InnerDuplicateAt(i: int, id: string)
      requires 0 <= i < |blocks|
      modifies this
      ensures var d := InnerDuplicate(old(blocks)[i], id, Ids(old(blocks)));
        blocks == if d.Some? then ReplaceInner(old(blocks), old(blocks)[i].id, d.value) else old(blocks)
      ensures selectedBlockId == old(selectedBlockId)
      ensures old(Valid()) ==> Valid()
    {
      var parent := blocks[i];
      var duplicated := InnerDuplicate(parent, id, Ids(blocks));
      if duplicated.Some? {
        if Valid() {
          InnerDuplicateIds(parent, id, Ids(blocks));
          var copy := duplicated.value[|Children(parent)|];
          ReplaceGrowKeepsUnique(blocks, i, duplicated.value, IdsOf(copy));
          RootWellFormed(blocks, i);
          InnerDuplicateKeepsShape(parent, id, Ids(blocks));
          ChildListKeepsShape(blocks, i, duplicated.value);
        }
        UpdateInnerBlocks(parent.id, duplicated.value);
      }
    }

    /** `addInnerBlock` on the root block at index i (SortableBlock.tsx:
      123-133): a new Paragraph with a fresh id after its children. Only a
      Columns block renders the button that calls it. */
    method AddInnerBlockAt(i: int)
      requires 0 <= i < |blocks| && blocks[i].blockType == Columns
      modifies this
      ensures var newId := FreshIds("inner-", Ids(old(blocks)), 1)[0];
        && newId !in Ids(old(blocks))
        && blocks == ReplaceInner(old(blocks), old(blocks)[i].id, AddInnerBlock(old(blocks)[i], newId))
      ensures old(Valid()) ==> |Children(blocks[i])| == |Children(old(blocks)[i])| + 1
      ensures old(Valid()) && old(CanAddInner(blocks[i])) ==> |Children(blocks[i])| <= 12
      ensures selectedBlockId == old(selectedBlockId)
      ensures old(Valid()) ==> Valid()
    {
      var parent := blocks[i];
      var newId := FreshIds("inner-", Ids(blocks), 1)[0];
      var children := AddInnerBlock(parent, newId);
      if Valid() {
        AddInnerKeepsUnique(blocks, i, newId);
        RootWellFormed(blocks, i);
        AddInnerKeepsShape(parent, newId);
        ChildListKeepsShape(blocks, i, children);
      }
      UpdateInnerBlocks(parent.id, children);
    }
  }
}
