/** The shape rule "only a Columns block carries an inner list", and why
    every operation of the editor keeps it: the tree operations change no
    block's kind and only give children to blocks that already have them,
    copies and instances have the shape of their template, and a
    container's callbacks build child lists out of well-formed blocks. */
module Shape {
  import opened Types
  import opened Tree
  import opened Lookup
  import opened Engine
  import opened Ordering
  import opened SortableBlock

  /** A list obeys the rule exactly when each of its blocks does. */
  lemma {:induction false} WellFormedEach(bs: seq<Block>)
    ensures WellFormed(bs) <==> forall k :: 0 <= k < |bs| ==> WellFormedBlock(bs[k])
    decreases bs
  {
    if bs != [] {
      WellFormedEach(bs[1..]);
      assert forall k :: 1 <= k < |bs| ==> bs[k] == bs[1..][k - 1];
    }
  }

  /** The same for templates. */
  lemma {:induction false} PatternsWellFormedEach(ps: seq<PatternBlock>)
    ensures PatternsWellFormed(ps) <==> forall k :: 0 <= k < |ps| ==> PatternBlockWellFormed(ps[k])
    decreases ps
  {
    if ps != [] {
      PatternsWellFormedEach(ps[1..]);
      assert forall k :: 1 <= k < |ps| ==> ps[k] == ps[1..][k - 1];
    }
  }

  lemma WellFormedConcat(a: seq<Block>, b: seq<Block>)
    ensures WellFormed(a + b) <==> WellFormed(a) && WellFormed(b)
  {
    WellFormedEach(a);
    WellFormedEach(b);
    WellFormedEach(a + b);
    assert forall k :: 0 <= k < |a| ==> (a + b)[k] == a[k];
    assert forall k :: 0 <= k < |b| ==> (a + b)[|a| + k] == b[k];
    assert forall k :: |a| <= k < |a + b| ==> (a + b)[k] == b[k - |a|];
  }

  /** Whether a block obeys the rule depends on its template alone. */
  lemma {:induction false} ShapeOfTemplate(b: Block)
    ensures WellFormedBlock(b) == PatternBlockWellFormed(ToPattern(b))
    decreases b
  {
    match b.innerBlocks
    case NoInner =>
    case HasInner(kids) => ShapeOfTemplates(kids);
  }

  lemma {:induction false} ShapeOfTemplates(bs: seq<Block>)
    ensures WellFormed(bs) == PatternsWellFormed(ToPatterns(bs))
    decreases bs
  {
    if bs != [] {
      ShapeOfTemplate(bs[0]);
      ShapeOfTemplates(bs[1..]);
      var ps := ToPatterns(bs);
      assert ps[0] == ToPattern(bs[0]) && ps[1..] == ToPatterns(bs[1..]);
    }
  }

  /** A deep copy obeys the rule when its original does. */
  lemma CopyKeepsShape(b: Block, ids: seq<string>)
    requires |ids| == |IdsOf(b)| && WellFormedBlock(b)
    ensures WellFormedBlock(CreateCopy(b, ids))
  {
    ShapeOfTemplate(b);
    ShapeOfTemplate(CreateCopy(b, ids));
  }

  /** The instances of well-formed templates obey the rule. */
  lemma InstancesKeepShape(ps: seq<PatternBlock>, ids: seq<string>)
    requires |ids| == PatternsSize(ps) && PatternsWellFormed(ps)
    ensures WellFormed(InstantiateAll(ps, ids))
  {
    ShapeOfTemplates(InstantiateAll(ps, ids));
  }

  /** A block found in a well-formed tree obeys the rule. */
  lemma {:induction false} FoundKeepsShape(bs: seq<Block>, id: string)
    requires WellFormed(bs) && Find(bs, id).Some?
    ensures WellFormedBlock(Find(bs, id).value)
    decreases bs
  {
    if FindIn(bs[0], id).Some? {
      FoundInKeepsShape(bs[0], id);
    } else {
      FoundKeepsShape(bs[1..], id);
    }
  }

  lemma {:induction false} FoundInKeepsShape(b: Block, id: string)
    requires WellFormedBlock(b) && FindIn(b, id).Some?
    ensures WellFormedBlock(FindIn(b, id).value)
    decreases b
  {
    if b.id != id {
      match b.innerBlocks
      case NoInner =>
      case HasInner(kids) => FoundKeepsShape(kids, id);
    }
  }

  /** A drop only reorders the root blocks. */
  lemma DragKeepsShape(items: seq<Block>, activeId: string, overId: Option<string>)
    requires WellFormed(items)
    ensures WellFormed(DragEnd(items, activeId, overId))
  {
    var r := DragEnd(items, activeId, overId);
    WellFormedEach(items);
    WellFormedEach(r);
    forall k | 0 <= k < |r| ensures WellFormedBlock(r[k]) {
      assert r[k] in multiset(r);
      assert r[k] in items;
    }
  }

  /** The attribute update changes no kind and no child list's shape. */
  lemma {:induction false} UpdateKeepsShape(bs: seq<Block>, id: string, patch: Attributes)
    requires WellFormed(bs)
    ensures WellFormed(UpdateBlocks(bs, id, patch))
    decreases bs
  {
    if bs != [] {
      var r := UpdateBlocks(bs, id, patch);
      assert r[0] == UpdateOne(bs[0], id, patch) && r[1..] == UpdateBlocks(bs[1..], id, patch);
      UpdateOneKeepsShape(bs[0], id, patch);
      UpdateKeepsShape(bs[1..], id, patch);
    }
  }

  lemma {:induction false} UpdateOneKeepsShape(b: Block, id: string, patch: Attributes)
    requires WellFormedBlock(b)
    ensures WellFormedBlock(UpdateOne(b, id, patch))
    decreases b
  {
    if b.id != id {
      match b.innerBlocks
      case NoInner =>
      case HasInner(kids) => UpdateKeepsShape(kids, id, patch);
    }
  }

  /** Removal only takes blocks away. */
  lemma {:induction false} RemoveKeepsShape(bs: seq<Block>, id: string)
    requires WellFormed(bs)
    ensures WellFormed(RemoveBlocks(bs, id))
    decreases bs
  {
    if bs != [] {
      RemoveKeepsShape(bs[1..], id);
      if bs[0].id != id {
        PruneKeepsShape(bs[0], id);
        var r := RemoveBlocks(bs, id);
        assert r[0] == Prune(bs[0], id) && r[1..] == RemoveBlocks(bs[1..], id);
      }
    }
  }

  lemma {:induction false} PruneKeepsShape(b: Block, id: string)
    requires WellFormedBlock(b)
    ensures WellFormedBlock(Prune(b, id))
    decreases b
  {
    match b.innerBlocks
    case NoInner =>
    case HasInner(kids) => RemoveKeepsShape(kids, id);
  }

  /** Inserting a well-formed copy keeps the rule: it goes into a list that
      is the root list or already a Columns block's children. */
  lemma {:induction false} InsertedKeepsShape(list: seq<Block>, id: string, copy: Block)
    requires WellFormed(list) && WellFormedBlock(copy)
    ensures WellFormed(InsertedAfter(list, id, copy))
    decreases list, 1
  {
    var i := IndexOf(list, id);
    if i >= 0 {
      SplitAt(list, i + 1);
      WellFormedConcat(list[..i + 1], list[i + 1..]);
      assert WellFormed([copy]) by {
        assert [copy][1..] == [];
      }
      WellFormedConcat(list[..i + 1], [copy]);
      WellFormedConcat(list[..i + 1] + [copy], list[i + 1..]);
    } else {
      InsertBelowKeepsShape(list, id, copy);
    }
  }

  lemma {:induction false} InsertBelowKeepsShape(list: seq<Block>, id: string, copy: Block)
    requires WellFormed(list) && WellFormedBlock(copy)
    ensures WellFormed(InsertBelow(list, id, copy))
    decreases list, 0
  {
    var r := InsertBelow(list, id, copy);
    WellFormedEach(list);
    WellFormedEach(r);
    forall k | 0 <= k < |list| ensures WellFormedBlock(r[k]) {
      InsertIntoKeepsShape(list[k], id, copy);
    }
  }

  lemma {:induction false} InsertIntoKeepsShape(b: Block, id: string, copy: Block)
    requires WellFormedBlock(b) && WellFormedBlock(copy)
    ensures WellFormedBlock(InsertInto(b, id, copy))
    decreases b
  {
    match b.innerBlocks
    case NoInner =>
    case HasInner(kids) => InsertedKeepsShape(kids, id, copy);
  }

  /** `updateInnerBlocks` keeps the rule when every root with the parent id
      is a Columns block and the new children obey it. */
  lemma ReplaceInnerKeepsShape(bs: seq<Block>, parentId: string, newInner: seq<Block>)
    requires WellFormed(bs) && WellFormed(newInner)
    requires forall j :: 0 <= j < |bs| && bs[j].id == parentId ==> bs[j].blockType == Columns
    ensures WellFormed(ReplaceInner(bs, parentId, newInner))
  {
    var r := ReplaceInner(bs, parentId, newInner);
    WellFormedEach(bs);
    WellFormedEach(r);
    forall j | 0 <= j < |r| ensures WellFormedBlock(r[j]) {
      if bs[j].id == parentId {
        assert r[j].blockType == Columns && r[j].innerBlocks == HasInner(newInner);
      }
    }
  }

  /** In a tree with unique ids, only the root at index i has its id. */
  lemma OnlyRootWithId(bs: seq<Block>, i: int)
    requires UniqueIds(bs) && 0 <= i < |bs|
    ensures forall j :: 0 <= j < |bs| && bs[j].id == bs[i].id ==> j == i
  {
    forall j | 0 <= j < |bs| && j != i ensures bs[j].id != bs[i].id {
      RootsDisjoint(bs, i, j);
      assert IdsOf(bs[i])[0] == bs[i].id && IdsOf(bs[j])[0] == bs[j].id;
      assert bs[i].id in IdsOf(bs[i]) && bs[j].id in IdsOf(bs[j]);
    }
  }

  /** A root block of a well-formed list obeys the rule. */
  lemma RootWellFormed(bs: seq<Block>, i: int)
    requires WellFormed(bs) && 0 <= i < |bs|
    ensures WellFormedBlock(bs[i])
  {
    WellFormedEach(bs);
  }

  /** A root Columns block given a well-formed child list keeps the rule,
      in a tree with unique ids where no other root shares its id. */
  lemma ChildListKeepsShape(bs: seq<Block>, i: int, newInner: seq<Block>)
    requires UniqueIds(bs) && WellFormed(bs) && 0 <= i < |bs|
    requires bs[i].blockType == Columns && WellFormed(newInner)
    ensures WellFormed(ReplaceInner(bs, bs[i].id, newInner))
  {
    OnlyRootWithId(bs, i);
    ReplaceInnerKeepsShape(bs, bs[i].id, newInner);
  }

  /** The container's update callback gives a well-formed child list when
      the container obeys the rule; a container with a list is Columns. */
  lemma InnerUpdateKeepsShape(b: Block, id: string, patch: Attributes)
    requires WellFormedBlock(b) && InnerUpdate(b, id, patch).Some?
    ensures b.blockType == Columns && WellFormed(InnerUpdate(b, id, patch).value)
  {
    var r := InnerUpdate(b, id, patch).value;
    var kids := Children(b);
    WellFormedEach(kids);
    WellFormedEach(r);
    forall k | 0 <= k < |r| ensures WellFormedBlock(r[k]) {
      assert r[k].blockType == kids[k].blockType && r[k].innerBlocks == kids[k].innerBlocks;
      assert WellFormedBlock(kids[k]);
    }
  }

  lemma InnerRemoveKeepsShape(b: Block, id: string)
    requires WellFormedBlock(b) && InnerRemove(b, id).Some?
    ensures b.blockType == Columns && WellFormed(InnerRemove(b, id).value)
  {
    var r := InnerRemove(b, id).value;
    var kids := Children(b);
    WellFormedEach(kids);
    WellFormedEach(r);
    forall k | 0 <= k < |r| ensures WellFormedBlock(r[k]) {
      assert r[k] in kids;
    }
  }

  lemma InnerDuplicateKeepsShape(b: Block, id: string, avoid: seq<string>)
    requires WellFormedBlock(b) && InnerDuplicate(b, id, avoid).Some?
    ensures b.blockType == Columns && WellFormed(InnerDuplicate(b, id, avoid).value)
  {
    var r := InnerDuplicate(b, id, avoid).value;
    var kids := Children(b);
    var copy := r[|kids|];
    WellFormedEach(kids);
    var original := kids[IndexOf(kids, id)];
    ShapeOfTemplate(original);
    ShapeOfTemplate(copy);
    assert r == kids + [copy];
    assert WellFormed([copy]) by {
      assert [copy][1..] == [];
    }
    WellFormedConcat(kids, [copy]);
  }

  lemma AddInnerKeepsShape(b: Block, newId: string)
    requires WellFormedBlock(b)
    ensures WellFormed(AddInnerBlock(b, newId))
  {
    var p := NewInnerParagraph(newId);
    assert AddInnerBlock(b, newId) == Children(b) + [p];
    assert WellFormed([p]) by {
      assert [p][1..] == [];
    }
    assert WellFormed(Children(b));
    WellFormedConcat(Children(b), [p]);
  }
}
