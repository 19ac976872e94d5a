/** The editor's tree mutations (App.tsx:100-196): the attribute merge, new
    blocks with per-type defaults, recursive update and removal, duplication
    (deep copy and insertion after the original), pattern instantiation and
    the root-level replacement of a container's inner list. */
module Engine {
  import opened Types
  import opened Tree
  import opened Lookup

  function Pick<T>(over: Option<T>, base: Option<T>): Option<T>
  {
    if over.Some? then over else base
  }

  /** `{ ...a, ...patch }`: each key the patch sets replaces the old value,
      every other key keeps it (App.tsx:164). */
  function Merge(a: Attributes, patch: Attributes): (r: Attributes)
    ensures r.content == if patch.content.Some? then patch.content else a.content
    ensures r.language == if patch.language.Some? then patch.language else a.language
    ensures r.level == if patch.level.Some? then patch.level else a.level
    ensures r.url == if patch.url.Some? then patch.url else a.url
    ensures r.caption == if patch.caption.Some? then patch.caption else a.caption
    ensures r.height == if patch.height.Some? then patch.height else a.height
    ensures r.columns == if patch.columns.Some? then patch.columns else a.columns
    ensures r.gap == if patch.gap.Some? then patch.gap else a.gap
    ensures r.layout == if patch.layout.Some? then patch.layout else a.layout
    ensures r.verticalAlign == if patch.verticalAlign.Some? then patch.verticalAlign else a.verticalAlign
    ensures r.backgroundColor == if patch.backgroundColor.Some? then patch.backgroundColor else a.backgroundColor
    ensures r.textColor == if patch.textColor.Some? then patch.textColor else a.textColor
    ensures r.padding == if patch.padding.Some? then patch.padding else a.padding
    ensures r.borderRadius == if patch.borderRadius.Some? then patch.borderRadius else a.borderRadius
    ensures r.fontSize == if patch.fontSize.Some? then patch.fontSize else a.fontSize
  {
    Attributes(
      Pick(patch.content, a.content),
      Pick(patch.language, a.language),
      Pick(patch.level, a.level),
      Pick(patch.url, a.url),
      Pick(patch.caption, a.caption),
      Pick(patch.height, a.height),
      Pick(patch.columns, a.columns),
      Pick(patch.gap, a.gap),
      Pick(patch.layout, a.layout),
      Pick(patch.verticalAlign, a.verticalAlign),
      Pick(patch.backgroundColor, a.backgroundColor),
      Pick(patch.textColor, a.textColor),
      Pick(patch.padding, a.padding),
      Pick(patch.borderRadius, a.borderRadius),
      Pick(patch.fontSize, a.fontSize))
  }

  /** The empty patch changes nothing; applying a patch twice is applying
      it once; two patches in a row are the second merged over the first. */
  lemma MergeLaws(a: Attributes, p: Attributes, q: Attributes)
    ensures Merge(a, NoAttributes) == a
    ensures Merge(Merge(a, p), p) == Merge(a, p)
    ensures Merge(Merge(a, p), q) == Merge(a, Merge(p, q))
  {
  }

  /** The attributes `addBlock` gives a new block of kind t (App.tsx:104-113):
      content is always set; each other default belongs to one kind. */
  function DefaultAttributes(t: BlockType): (r: Attributes)
    ensures r.content == Some(if t == Code then "// Code here..." else "")
    ensures r.language.Some? <==> t == Code
    ensures r.level.Some? <==> t == Heading
    ensures r.height.Some? <==> t == Spacer
    ensures r.columns.Some? <==> t == Columns
    ensures r.gap.Some? <==> t == Columns
    ensures r.layout.Some? <==> t == Columns
    ensures r.verticalAlign.Some? <==> t == Columns
    ensures r.url == None && r.caption == None && r.fontSize == None && r.padding == None
    ensures r.backgroundColor == None && r.textColor == None && r.borderRadius == None
    ensures t == Code ==> r.language == Some("javascript")
    ensures t == Heading ==> r.level == Some(2)
    ensures t == Spacer ==> r.height == Some(40)
    ensures t == Columns ==>
      && r.columns == Some(2) && r.gap == Some(24)
      && r.layout == Some(Equal) && r.verticalAlign == Some(Start)
  {
    NoAttributes.(
      content := Some(if t == Code then "// Code here..." else ""),
      language := if t == Code then Some("javascript") else None,
      level := if t == Heading then Some(2) else None,
      height := if t == Spacer then Some(40) else None,
      columns := if t == Columns then Some(2) else None,
      gap := if t == Columns then Some(24) else None,
      layout := if t == Columns then Some(Equal) else None,
      verticalAlign := if t == Columns then Some(Start) else None)
  }

  /** The block `addBlock` creates (App.tsx:101-115): only a Columns block
      starts with an (empty) inner list. */
  function NewBlock(t: BlockType, id: string): (r: Block)
    ensures r.id == id && r.blockType == t && r.attributes == DefaultAttributes(t)
    ensures IdsOf(r) == [id]
    ensures r.innerBlocks.HasInner? <==> t == Columns
    ensures r.innerBlocks.HasInner? ==> r.innerBlocks.blocks == []
    ensures WellFormedBlock(r)
  {
    Block(id, t, DefaultAttributes(t), if t == Columns then HasInner([]) else NoInner)
  }

  // ---------------------------------------------------------------------
  // updateBlockRecursive (App.tsx:161-171)

  /** Merges the patch into every block with the id that is not itself
      below such a block; all other blocks keep their values. */
  function UpdateBlocks(bs: seq<Block>, id: string, patch: Attributes): (r: seq<Block>)
    decreases bs
    ensures |r| == |bs|
    ensures Ids(r) == Ids(bs)
    ensures id !in Ids(bs) ==> r == bs
    ensures patch == NoAttributes ==> r == bs
  {
    if bs == [] then []
    else
      var r := [UpdateOne(bs[0], id, patch)] + UpdateBlocks(bs[1..], id, patch);
      assert r[0] == UpdateOne(bs[0], id, patch) && r[1..] == UpdateBlocks(bs[1..], id, patch);
      r
  }

  function UpdateOne(b: Block, id: string, patch: Attributes): (r: Block)
    decreases b
    ensures r.id == b.id && IdsOf(r) == IdsOf(b)
    ensures id !in IdsOf(b) ==> r == b
    ensures patch == NoAttributes ==> r == b
  {
    if b.id == id then b.(attributes := Merge(b.attributes, patch))
    else match b.innerBlocks
      case NoInner => b
      case HasInner(kids) => b.(innerBlocks := HasInner(UpdateBlocks(kids, id, patch)))
  }

  /** Looking a block up after the update: the block with the id comes back
      with the merged attributes and its children as they were; every
      other block keeps its kind and its attributes, and one whose subtree
      does not hold the id comes back unchanged. */
  lemma {:induction false} UpdateFind(bs: seq<Block>, id: string, patch: Attributes, x: string)
    ensures Find(UpdateBlocks(bs, id, patch), x).Some? == Find(bs, x).Some?
    ensures Find(bs, x).Some? ==>
      var before, after := Find(bs, x).value, Find(UpdateBlocks(bs, id, patch), x).value;
      && after.blockType == before.blockType
      && after.attributes == (if x == id then Merge(before.attributes, patch) else before.attributes)
      && (x == id ==> after == before.(attributes := Merge(before.attributes, patch)))
    ensures Find(bs, x).Some? && id !in IdsOf(Find(bs, x).value) ==>
      Find(UpdateBlocks(bs, id, patch), x) == Find(bs, x)
    decreases bs
  {
    if bs != [] {
      var r := UpdateBlocks(bs, id, patch);
      assert r[0] == UpdateOne(bs[0], id, patch) && r[1..] == UpdateBlocks(bs[1..], id, patch);
      UpdateFindIn(bs[0], id, patch, x);
      UpdateFind(bs[1..], id, patch, x);
    }
  }

  lemma {:induction false} UpdateFindIn(b: Block, id: string, patch: Attributes, x: string)
    ensures FindIn(UpdateOne(b, id, patch), x).Some? == FindIn(b, x).Some?
    ensures FindIn(b, x).Some? ==>
      var before, after := FindIn(b, x).value, FindIn(UpdateOne(b, id, patch), x).value;
      && after.blockType == before.blockType
      && after.attributes == (if x == id then Merge(before.attributes, patch) else before.attributes)
      && (x == id ==> after == before.(attributes := Merge(before.attributes, patch)))
    ensures FindIn(b, x).Some? && id !in IdsOf(FindIn(b, x).value) ==>
      FindIn(UpdateOne(b, id, patch), x) == FindIn(b, x)
    decreases b
  {
    if b.id != id && b.id != x {
      match b.innerBlocks
      case NoInner =>
      case HasInner(kids) => UpdateFind(kids, id, patch, x);
    }
  }

  /** When only the root block at index i contains the id, the update
      touches that root block alone. */
  lemma {:induction false} UpdateAtRoot(bs: seq<Block>, i: int, id: string, patch: Attributes)
    requires 0 <= i < |bs|
    requires forall j :: 0 <= j < |bs| && j != i ==> id !in IdsOf(bs[j])
    ensures UpdateBlocks(bs, id, patch) == bs[i := UpdateOne(bs[i], id, patch)]
  {
    var rest := bs[1..];
    var r := UpdateBlocks(bs, id, patch);
    assert r[0] == UpdateOne(bs[0], id, patch) && r[1..] == UpdateBlocks(rest, id, patch);
    if i == 0 {
      forall j | 0 <= j < |rest| ensures id !in IdsOf(rest[j]) {
        assert rest[j] == bs[j + 1];
      }
      NotInAnyRoot(rest, id);
      ConsAt(bs, 0, r[0], r);
    } else {
      forall j | 0 <= j < |rest| && j != i - 1 ensures id !in IdsOf(rest[j]) {
        assert rest[j] == bs[j + 1];
      }
      UpdateAtRoot(rest, i - 1, id, patch);
      ConsAt(bs, i, UpdateOne(bs[i], id, patch), r);
    }
  }

  /** `r` is `s` with the element at i replaced by x, given its head and tail. */
  lemma ConsAt<T>(s: seq<T>, i: int, x: T, r: seq<T>)
    requires 0 <= i < |s| && |r| == |s|
    requires i == 0 ==> r[0] == x && r[1..] == s[1..]
    requires i > 0 ==> r[0] == s[0] && r[1..] == s[1..][i - 1 := x]
    ensures r == s[i := x]
  {
    forall k | 0 <= k < |s| ensures r[k] == s[i := x][k] {
      if k > 0 {
        assert r[k] == r[1..][k - 1];
      }
    }
  }

  // ---------------------------------------------------------------------
  // removeBlockRecursive (App.tsx:173-181)

  /** Drops every block with the id, with its subtree, at any depth. */
  function RemoveBlocks(bs: seq<Block>, id: string): (r: seq<Block>)
    decreases bs
    ensures id !in Ids(r)
    ensures id !in Ids(bs) ==> r == bs
  {
    if bs == [] then []
    else if bs[0].id == id then RemoveBlocks(bs[1..], id)
    else
      var r := [Prune(bs[0], id)] + RemoveBlocks(bs[1..], id);
      assert r[0] == Prune(bs[0], id) && r[1..] == RemoveBlocks(bs[1..], id);
      r
  }

  /** A kept block, with the id removed below it. */
  function Prune(b: Block, id: string): (r: Block)
    decreases b
    ensures r.id == b.id && r.blockType == b.blockType && r.attributes == b.attributes
    ensures b.id != id ==> id !in IdsOf(r)
    ensures id !in IdsOf(b) ==> r == b
  {
    match b.innerBlocks
    case NoInner => b
    case HasInner(kids) =>
      assert IdsOf(b) == [b.id] + Ids(kids);
      b.(innerBlocks := HasInner(RemoveBlocks(kids, id)))
  }

  lemma {:induction false} RemoveConcat(a: seq<Block>, b: seq<Block>, id: string)
    ensures RemoveBlocks(a + b, id) == RemoveBlocks(a, id) + RemoveBlocks(b, id)
  {
    if a == [] {
      assert a + b == b;
    } else {
      assert (a + b)[0] == a[0];
      assert (a + b)[1..] == a[1..] + b;
      RemoveConcat(a[1..], b, id);
    }
  }

  lemma RemoveOne(b: Block, id: string)
    ensures RemoveBlocks([b], id) == if b.id == id then [] else [Prune(b, id)]
  {
    assert [b][1..] == [];
  }

  /** `removeBlockRecursive`: a filter over the list; a kept block with
      children has its inner list replaced by the recursive result. */
  method RemoveBlockRecursive(blocks: seq<Block>, id: string) returns (r: seq<Block>)
    decreases blocks
    ensures r == RemoveBlocks(blocks, id)
  {
    r := [];
    var i := 0;
    while i < |blocks|
      invariant 0 <= i <= |blocks|
      invariant r == RemoveBlocks(blocks[..i], id)
    {
      var block := blocks[i];
      assert blocks[..i + 1] == blocks[..i] + [block];
      RemoveConcat(blocks[..i], [block], id);
      RemoveOne(block, id);
      if block.id != id {
        if block.innerBlocks.HasInner? {
          var kids := RemoveBlockRecursive(block.innerBlocks.blocks, id);
          block := block.(innerBlocks := HasInner(kids));
        }
        r := r + [block];
      }
      i := i + 1;
    }
    assert blocks[..i] == blocks;
  }

  /** When only the root block at index i contains the id, and not as its
      own id, removal touches that root block alone. */
  lemma {:induction false} RemoveAtRoot(bs: seq<Block>, i: int, id: string)
    requires 0 <= i < |bs| && bs[i].id != id
    requires forall j :: 0 <= j < |bs| && j != i ==> id !in IdsOf(bs[j])
    ensures RemoveBlocks(bs, id) == bs[i := Prune(bs[i], id)]
  {
    var rest := bs[1..];
    var r := RemoveBlocks(bs, id);
    assert bs[0].id in IdsOf(bs[0]);
    assert r == [Prune(bs[0], id)] + RemoveBlocks(rest, id);
    assert r[0] == Prune(bs[0], id) && r[1..] == RemoveBlocks(rest, id);
    if i == 0 {
      forall j | 0 <= j < |rest| ensures id !in IdsOf(rest[j]) {
        assert rest[j] == bs[j + 1];
      }
      NotInAnyRoot(rest, id);
      ConsAt(bs, 0, r[0], r);
    } else {
      forall j | 0 <= j < |rest| && j != i - 1 ensures id !in IdsOf(rest[j]) {
        assert rest[j] == bs[j + 1];
      }
      assert rest[i - 1] == bs[i];
      RemoveAtRoot(rest, i - 1, id);
      ConsAt(bs, i, Prune(bs[i], id), r);
    }
  }

  /** Removal only ever takes ids away, at any depth. */
  lemma {:induction false} RemoveShrinks(bs: seq<Block>, id: string)
    ensures multiset(Ids(RemoveBlocks(bs, id))) <= multiset(Ids(bs))
    decreases bs
  {
    if bs != [] {
      assert Ids(bs) == IdsOf(bs[0]) + Ids(bs[1..]);
      RemoveShrinks(bs[1..], id);
      if bs[0].id != id {
        var r := RemoveBlocks(bs, id);
        assert r == [Prune(bs[0], id)] + RemoveBlocks(bs[1..], id);
        assert Ids(r) == IdsOf(Prune(bs[0], id)) + Ids(RemoveBlocks(bs[1..], id));
        PruneShrinks(bs[0], id);
      }
    }
  }

  lemma {:induction false} PruneShrinks(b: Block, id: string)
    ensures multiset(IdsOf(Prune(b, id))) <= multiset(IdsOf(b))
    decreases b
  {
    match b.innerBlocks
    case NoInner =>
    case HasInner(kids) =>
      RemoveShrinks(kids, id);
      assert IdsOf(b) == [b.id] + Ids(kids);
      assert IdsOf(Prune(b, id)) == [b.id] + Ids(RemoveBlocks(kids, id));
  }

  /** Removal keeps the ids of a tree unique. */
  lemma RemoveKeepsUnique(bs: seq<Block>, id: string)
    requires UniqueIds(bs)
    ensures UniqueIds(RemoveBlocks(bs, id))
  {
    RemoveShrinks(bs, id);
    var r := Ids(RemoveBlocks(bs, id));
    forall x ensures multiset(r)[x] <= 1 {
      assert multiset(r)[x] <= multiset(Ids(bs))[x];
    }
  }

  /** The subtree found for an id lies inside the tree. */
  lemma {:induction false} FoundIdsInTree(bs: seq<Block>, id: string)
    requires Find(bs, id).Some?
    ensures forall x :: x in IdsOf(Find(bs, id).value) ==> x in Ids(bs)
    decreases bs
  {
    if FindIn(bs[0], id).Some? {
      FoundInIdsInBlock(bs[0], id);
    } else {
      FoundIdsInTree(bs[1..], id);
    }
  }

  lemma {:induction false} FoundInIdsInBlock(b: Block, id: string)
    requires FindIn(b, id).Some?
    ensures forall x :: x in IdsOf(FindIn(b, id).value) ==> x in IdsOf(b)
    decreases b
  {
    if b.id != id {
      FoundIdsInTree(b.innerBlocks.blocks, id);
    }
  }

  /** In a tree with unique ids, removal takes away exactly the ids of the
      removed block's subtree and keeps every other id in its order. */
  lemma {:induction false} RemoveSubtree(bs: seq<Block>, id: string)
    requires UniqueIds(bs)
    requires Find(bs, id).Some?
    ensures Ids(RemoveBlocks(bs, id)) == Without(Ids(bs), IdsOf(Find(bs, id).value))
    decreases bs
  {
    var t := Find(bs, id).value;
    var b, rest := bs[0], bs[1..];
    assert Ids(bs) == IdsOf(b) + Ids(rest);
    DistinctConcat(IdsOf(b), Ids(rest));
    FoundIdsInTree(bs, id);
    if b.id == id {
      assert t == b;
      WithoutEverything(IdsOf(b), IdsOf(t));
      WithoutNothing(Ids(rest), IdsOf(t));
      WithoutConcat(IdsOf(b), Ids(rest), IdsOf(t));
    } else if id in IdsOf(b) {
      var kids := b.innerBlocks.blocks;
      assert FindIn(b, id) == Find(kids, id);
      assert t == Find(kids, id).value;
      DistinctConcat([b.id], Ids(kids));
      FoundIdsInTree(kids, id);
      RemoveSubtree(kids, id);
      assert IdsOf(Prune(b, id)) == [b.id] + Ids(RemoveBlocks(kids, id));
      WithoutConcat([b.id], Ids(kids), IdsOf(t));
      WithoutConcat(IdsOf(b), Ids(rest), IdsOf(t));
      WithoutNothing(Ids(rest), IdsOf(t));
      var r := RemoveBlocks(bs, id);
      assert r == [Prune(b, id)] + rest;
      assert Ids(r) == IdsOf(Prune(b, id)) + Ids(rest);
    } else {
      assert FindIn(b, id).None?;
      assert t == Find(rest, id).value;
      FoundIdsInTree(rest, id);
      RemoveSubtree(rest, id);
      WithoutNothing(IdsOf(b), IdsOf(t));
      WithoutConcat(IdsOf(b), Ids(rest), IdsOf(t));
      var r := RemoveBlocks(bs, id);
      assert r == [b] + RemoveBlocks(rest, id);
      assert Ids(r) == IdsOf(b) + Ids(RemoveBlocks(rest, id));
    }
  }

  /** Removing a block just appended gives back the list it was appended to. */
  lemma RemoveAppended(bs: seq<Block>, nb: Block)
    requires nb.id !in Ids(bs)
    ensures RemoveBlocks(bs + [nb], nb.id) == bs
  {
    RemoveConcat(bs, [nb], nb.id);
  }

  // ---------------------------------------------------------------------
  // duplicateBlock: createCopy and insertAfter (App.tsx:120-145)

  /** `createCopy`: the same block with `ids` given to its nodes in
      pre-order (the node before its children, as the object literal is
      evaluated). */
  function CreateCopy(b: Block, ids: seq<string>): (r: Block)
    requires |ids| == |IdsOf(b)|
    decreases b
    ensures IdsOf(r) == ids
    ensures ToPattern(r) == ToPattern(b)
  {
    Block(ids[0], b.blockType, b.attributes,
      match b.innerBlocks
      case NoInner => NoInner
      case HasInner(kids) =>
        assert IdsOf(b) == [b.id] + Ids(kids);
        HasInner(CopyAll(kids, ids[1..])))
  }

  function CopyAll(bs: seq<Block>, ids: seq<string>): (r: seq<Block>)
    requires |ids| == |Ids(bs)|
    decreases bs
    ensures Ids(r) == ids
    ensures ToPatterns(r) == ToPatterns(bs)
  {
    if bs == [] then []
    else
      var n := |IdsOf(bs[0])|;
      var r := [CreateCopy(bs[0], ids[..n])] + CopyAll(bs[1..], ids[n..]);
      assert r[0] == CreateCopy(bs[0], ids[..n]) && r[1..] == CopyAll(bs[1..], ids[n..]);
      assert ids == ids[..n] + ids[n..];
      r
  }

  /** `insertAfter`: in the first list, from the root down, whose blocks
      include the id, the copy goes right after the first such block;
      lists without it are searched in each child list. */
  function InsertedAfter(list: seq<Block>, id: string, copy: Block): (r: seq<Block>)
    decreases list, 1
    ensures id !in Ids(list) ==> r == list
  {
    var i := IndexOf(list, id);
    if i >= 0 then
      RootIdIn(list, i);
      list[..i + 1] + [copy] + list[i + 1..]
    else InsertBelow(list, id, copy)
  }

  function InsertBelow(list: seq<Block>, id: string, copy: Block): (r: seq<Block>)
    decreases list, 0
    ensures |r| == |list|
    ensures forall k :: 0 <= k < |list| ==> r[k] == InsertInto(list[k], id, copy)
    ensures id !in Ids(list) ==> r == list
  {
    if list == [] then []
    else
      var r := [InsertInto(list[0], id, copy)] + InsertBelow(list[1..], id, copy);
      assert forall k :: 1 <= k < |list| ==> list[k] == list[1..][k - 1];
      r
  }

  function InsertInto(b: Block, id: string, copy: Block): (r: Block)
    decreases b
    ensures r.id == b.id && r.blockType == b.blockType && r.attributes == b.attributes
    ensures id !in IdsOf(b) ==> r == b
  {
    match b.innerBlocks
    case NoInner => b
    case HasInner(kids) =>
      assert IdsOf(b) == [b.id] + Ids(kids);
      b.(innerBlocks := HasInner(InsertedAfter(kids, id, copy)))
  }

  /** `insertAfter` as written: find the index at this level and splice the
      copy in after it, or else rebuild the list with each child list
      searched in turn. */
  method InsertAfter(list: seq<Block>, id: string, copy: Block) returns (r: seq<Block>)
    decreases list
    ensures r == InsertedAfter(list, id, copy)
  {
    var index := IndexOf(list, id);
    if index != -1 {
      r := list[..index + 1] + [copy] + list[index + 1..];
      return;
    }
    r := [];
    var i := 0;
    while i < |list|
      invariant 0 <= i <= |list|
      invariant |r| == i
      invariant forall k :: 0 <= k < i ==> r[k] == InsertInto(list[k], id, copy)
    {
      var b := list[i];
      if b.innerBlocks.HasInner? {
        var kids := InsertAfter(b.innerBlocks.blocks, id, copy);
        r := r + [b.(innerBlocks := HasInner(kids))];
      } else {
        r := r + [b];
      }
      i := i + 1;
    }
  }

  /** The copy stands right after a block with the id, in the list that holds
      that block (the root list or some inner list). */
  ghost predicate AdjacentIn(list: seq<Block>, id: string, copy: Block)
    decreases list
  {
    || (exists i :: 0 <= i < |list| - 1 && list[i].id == id && list[i + 1] == copy)
    || (exists j :: 0 <= j < |list| && list[j].innerBlocks.HasInner? && AdjacentIn(list[j].innerBlocks.blocks, id, copy))
  }

  /** When the id is in the tree, the copy ends up right after its block. */
  lemma {:induction false} InsertedAdjacent(list: seq<Block>, id: string, copy: Block)
    requires id in Ids(list)
    ensures AdjacentIn(InsertedAfter(list, id, copy), id, copy)
    decreases list
  {
    var r := InsertedAfter(list, id, copy);
    var i := IndexOf(list, id);
    if i >= 0 {
      assert r[i] == list[i] && r[i + 1] == copy;
    } else {
      var j := IdInSomeRoot(list, id);
      var kids := list[j].innerBlocks.blocks;
      assert id in Ids(kids);
      InsertedAdjacent(kids, id, copy);
      assert r[j] == list[j].(innerBlocks := HasInner(InsertedAfter(kids, id, copy)));
    }
  }

  /** When the id occurs once, the copy's ids are added once to the tree's. */
  lemma {:induction false} InsertedIds(list: seq<Block>, id: string, copy: Block)
    requires multiset(Ids(list))[id] == 1
    ensures multiset(Ids(InsertedAfter(list, id, copy))) == multiset(Ids(list)) + multiset(IdsOf(copy))
    decreases list, 2
  {
    var i := IndexOf(list, id);
    if i >= 0 {
      assert list == list[..i + 1] + list[i + 1..];
      IdsConcat(list[..i + 1], list[i + 1..]);
      IdsConcat(list[..i + 1] + [copy], list[i + 1..]);
      IdsConcat(list[..i + 1], [copy]);
    } else {
      InsertBelowIds(list, id, copy);
    }
  }

  lemma {:induction false} InsertBelowIds(list: seq<Block>, id: string, copy: Block)
    requires multiset(Ids(list))[id] == 1
    requires forall k :: 0 <= k < |list| ==> list[k].id != id
    ensures multiset(Ids(InsertBelow(list, id, copy))) == multiset(Ids(list)) + multiset(IdsOf(copy))
    decreases list, 1
  {
    var b, rest := list[0], list[1..];
    if id in IdsOf(b) {
      InsertBelowInHead(list, id, copy);
    } else {
      var rest' := InsertBelow(rest, id, copy);
      assert InsertBelow(list, id, copy) == [b] + rest';
      assert Ids([b] + rest') == IdsOf(b) + Ids(rest');
      assert Ids(list) == IdsOf(b) + Ids(rest);
      assert multiset(Ids(list)) == multiset(IdsOf(b)) + multiset(Ids(rest));
      forall k | 0 <= k < |rest| ensures rest[k].id != id {
        assert rest[k] == list[k + 1];
      }
      InsertBelowIds(rest, id, copy);
    }
  }

  lemma {:induction false} InsertBelowInHead(list: seq<Block>, id: string, copy: Block)
    requires multiset(Ids(list))[id] == 1
    requires list != [] && list[0].id != id && id in IdsOf(list[0])
    ensures multiset(Ids(InsertBelow(list, id, copy))) == multiset(Ids(list)) + multiset(IdsOf(copy))
    decreases list, 0
  {
    var b, rest := list[0], list[1..];
    var b' := InsertInto(b, id, copy);
    assert InsertBelow(list, id, copy) == [b'] + InsertBelow(rest, id, copy);
    assert Ids(list) == IdsOf(b) + Ids(rest);
    assert multiset(Ids(list)) == multiset(IdsOf(b)) + multiset(Ids(rest));
    assert multiset(Ids(rest))[id] == 0;
    assert InsertBelow(rest, id, copy) == rest;
    assert Ids([b'] + rest) == IdsOf(b') + Ids(rest);
    InsertIntoIds(b, id, copy);
  }

  lemma {:induction false} InsertIntoIds(b: Block, id: string, copy: Block)
    requires multiset(IdsOf(b))[id] == 1
    requires b.id != id
    ensures multiset(IdsOf(InsertInto(b, id, copy))) == multiset(IdsOf(b)) + multiset(IdsOf(copy))
    decreases b
  {
    var kids := b.innerBlocks.blocks;
    assert IdsOf(b) == [b.id] + Ids(kids);
    assert IdsOf(InsertInto(b, id, copy)) == [b.id] + Ids(InsertedAfter(kids, id, copy));
    InsertedIds(kids, id, copy);
  }

  /** Removing the copy again gives back the tree it was inserted into. */
  lemma {:induction false} RemoveInserted(list: seq<Block>, id: string, copy: Block)
    requires copy.id !in Ids(list)
    ensures RemoveBlocks(InsertedAfter(list, id, copy), copy.id) == list
    decreases list, 1
  {
    var i := IndexOf(list, id);
    if i >= 0 {
      var a, c := list[..i + 1], list[i + 1..];
      assert list == a + c;
      assert InsertedAfter(list, id, copy) == (a + [copy]) + c;
      RemoveBetween(a, c, copy);
    } else {
      RemoveInsertBelow(list, id, copy);
    }
  }

  lemma {:induction false} RemoveBetween(a: seq<Block>, c: seq<Block>, copy: Block)
    requires copy.id !in Ids(a + c)
    ensures RemoveBlocks((a + [copy]) + c, copy.id) == a + c
  {
    assert copy.id !in Ids(a) && copy.id !in Ids(c) by {
      IdsConcat(a, c);
    }
    assert RemoveBlocks([copy], copy.id) == [] by {
      assert [copy][1..] == [];
    }
    assert RemoveBlocks(a + [copy], copy.id) == a by {
      RemoveConcat(a, [copy], copy.id);
      assert a + [] == a;
    }
    assert RemoveBlocks(c, copy.id) == c;
    RemoveConcat(a + [copy], c, copy.id);
  }

  lemma {:induction false} RemoveInsertBelow(list: seq<Block>, id: string, copy: Block)
    requires copy.id !in Ids(list)
    ensures RemoveBlocks(InsertBelow(list, id, copy), copy.id) == list
    decreases list, 0
  {
    if list != [] {
      var b, rest := list[0], list[1..];
      var r := InsertBelow(list, id, copy);
      assert r == [InsertInto(b, id, copy)] + InsertBelow(rest, id, copy);
      assert Ids(list) == IdsOf(b) + Ids(rest);
      assert b.id != copy.id;
      RemoveInsertBelow(rest, id, copy);
      match b.innerBlocks
      case NoInner =>
      case HasInner(kids) =>
        assert IdsOf(b) == [b.id] + Ids(kids);
        RemoveInserted(kids, id, copy);
    }
  }

  /** A search of a joined list looks in the second part only when the
      first part does not hold the id. */
  lemma {:induction false} FindConcat(a: seq<Block>, b: seq<Block>, id: string)
    ensures Find(a + b, id) == if Find(a, id).Some? then Find(a, id) else Find(b, id)
  {
    if a == [] {
      assert a + b == b;
    } else {
      assert (a + b)[0] == a[0] && (a + b)[1..] == a[1..] + b;
      FindConcat(a[1..], b, id);
    }
  }

  /** Duplication leaves the lookup of the duplicated id as it was: in a
      tree with unique ids the search still stops at the original, which
      comes before its copy. */
  lemma {:induction false} FindAfterInsert(list: seq<Block>, id: string, copy: Block)
    requires Distinct(Ids(list))
    ensures Find(InsertedAfter(list, id, copy), id) == Find(list, id)
    decreases list, 1
  {
    var i := IndexOf(list, id);
    if i >= 0 {
      var a, c := list[..i + 1], list[i + 1..];
      assert list == a + c;
      assert a[i] == list[i];
      RootIdIn(a, i);
      FindConcat(a, c, id);
      assert InsertedAfter(list, id, copy) == a + ([copy] + c);
      FindConcat(a, [copy] + c, id);
    } else {
      FindAfterInsertBelow(list, id, copy);
    }
  }

  lemma {:induction false} FindAfterInsertBelow(list: seq<Block>, id: string, copy: Block)
    requires Distinct(Ids(list))
    ensures Find(InsertBelow(list, id, copy), id) == Find(list, id)
    decreases list, 0
  {
    if list != [] {
      var b, rest := list[0], list[1..];
      var r := InsertBelow(list, id, copy);
      assert r == [InsertInto(b, id, copy)] + InsertBelow(rest, id, copy);
      assert r[0] == InsertInto(b, id, copy) && r[1..] == InsertBelow(rest, id, copy);
      assert Ids(list) == IdsOf(b) + Ids(rest);
      DistinctConcat(IdsOf(b), Ids(rest));
      FindInAfterInsert(b, id, copy);
      FindAfterInsertBelow(rest, id, copy);
    }
  }

  lemma {:induction false} FindInAfterInsert(b: Block, id: string, copy: Block)
    requires Distinct(IdsOf(b))
    ensures FindIn(InsertInto(b, id, copy), id) == FindIn(b, id)
    decreases b
  {
    match b.innerBlocks
    case NoInner =>
    case HasInner(kids) =>
      assert IdsOf(b) == [b.id] + Ids(kids);
      DistinctConcat([b.id], Ids(kids));
      if b.id != id {
        FindAfterInsert(kids, id, copy);
      }
  }

  // ---------------------------------------------------------------------
  // addPattern: createBlockWithId (App.tsx:147-159)

  /** `createBlockWithId`: the block a template stands for, with `ids`
      given to its nodes in pre-order. */
  function Instantiate(pb: PatternBlock, ids: seq<string>): (r: Block)
    requires |ids| == PatternSize(pb)
    decreases pb
    ensures IdsOf(r) == ids
    ensures ToPattern(r) == pb
  {
    Block(ids[0], pb.blockType, pb.attributes,
      match pb.innerBlocks
      case NoPatternInner => NoInner
      case HasPatternInner(kids) => HasInner(InstantiateAll(kids, ids[1..])))
  }

  function InstantiateAll(ps: seq<PatternBlock>, ids: seq<string>): (r: seq<Block>)
    requires |ids| == PatternsSize(ps)
    decreases ps
    ensures |r| == |ps|
    ensures Ids(r) == ids
    ensures ToPatterns(r) == ps
  {
    if ps == [] then []
    else
      var n := PatternSize(ps[0]);
      assert PatternsSize(ps) == n + PatternsSize(ps[1..]);
      var first := Instantiate(ps[0], ids[..n]);
      var rest := InstantiateAll(ps[1..], ids[n..]);
      var r := [first] + rest;
      assert r[0] == first && r[1..] == rest;
      assert Ids(r) == IdsOf(first) + Ids(rest);
      assert ToPatterns(r) == [ToPattern(first)] + ToPatterns(rest);
      assert ids == ids[..n] + ids[n..];
      r
  }

  /** A block is determined by its ids and its template. */
  lemma {:induction false} BlockFromIdsAndPattern(a: Block, b: Block)
    requires IdsOf(a) == IdsOf(b) && ToPattern(a) == ToPattern(b)
    ensures a == b
    decreases a
  {
    match a.innerBlocks
    case NoInner =>
    case HasInner(kids) =>
      assert ToPattern(a).innerBlocks == HasPatternInner(ToPatterns(kids));
      var others := b.innerBlocks.blocks;
      assert ToPattern(b).innerBlocks == HasPatternInner(ToPatterns(others));
      assert IdsOf(a) == [a.id] + Ids(kids) && IdsOf(b) == [b.id] + Ids(others);
      assert Ids(kids) == IdsOf(a)[1..] && Ids(others) == IdsOf(b)[1..];
      BlocksFromIdsAndPatterns(kids, others);
  }

  lemma {:induction false} BlocksFromIdsAndPatterns(xs: seq<Block>, ys: seq<Block>)
    requires Ids(xs) == Ids(ys) && ToPatterns(xs) == ToPatterns(ys)
    ensures xs == ys
    decreases xs
  {
    if xs != [] {
      assert ys != [];
      var px, py := ToPatterns(xs), ToPatterns(ys);
      assert px == [ToPattern(xs[0])] + ToPatterns(xs[1..]);
      assert py == [ToPattern(ys[0])] + ToPatterns(ys[1..]);
      assert px[0] == ToPattern(xs[0]) && py[0] == ToPattern(ys[0]);
      assert px[1..] == ToPatterns(xs[1..]) && py[1..] == ToPatterns(ys[1..]);
      IdsOfSize(xs[0]);
      IdsOfSize(ys[0]);
      var n := |IdsOf(xs[0])|;
      assert Ids(xs)[..n] == IdsOf(xs[0]) && Ids(ys)[..n] == IdsOf(ys[0]);
      BlockFromIdsAndPattern(xs[0], ys[0]);
      assert Ids(xs)[n..] == Ids(xs[1..]) && Ids(ys)[n..] == Ids(ys[1..]);
      BlocksFromIdsAndPatterns(xs[1..], ys[1..]);
      assert xs == [xs[0]] + xs[1..] && ys == [ys[0]] + ys[1..];
    }
  }

  /** A deep copy is the instance of the original's template with new ids. */
  lemma CopyIsInstance(b: Block, ids: seq<string>)
    requires |ids| == |IdsOf(b)|
    ensures |ids| == PatternSize(ToPattern(b))
    ensures CreateCopy(b, ids) == Instantiate(ToPattern(b), ids)
  {
    IdsOfSize(b);
    BlockFromIdsAndPattern(CreateCopy(b, ids), Instantiate(ToPattern(b), ids));
  }

  // ---------------------------------------------------------------------
  // updateInnerBlocks (App.tsx:192-196)

  /** Gives the new inner list to every ROOT block with the parent id; blocks
      below the root are never matched. */
  function ReplaceInner(bs: seq<Block>, parentId: string, newInner: seq<Block>): (r: seq<Block>)
    decreases bs
    ensures |r| == |bs|
    ensures forall j :: 0 <= j < |bs| ==>
      r[j].id == bs[j].id && r[j].blockType == bs[j].blockType && r[j].attributes == bs[j].attributes
    ensures forall j :: 0 <= j < |bs| && bs[j].id != parentId ==> r[j] == bs[j]
    ensures forall j :: 0 <= j < |bs| && bs[j].id == parentId ==> r[j].innerBlocks == HasInner(newInner)
    ensures (forall j :: 0 <= j < |bs| ==> bs[j].id != parentId) ==> r == bs
  {
    if bs == [] then []
    else
      var first := if bs[0].id == parentId then bs[0].(innerBlocks := HasInner(newInner)) else bs[0];
      var r := [first] + ReplaceInner(bs[1..], parentId, newInner);
      assert forall k :: 1 <= k < |bs| ==> bs[k] == bs[1..][k - 1] && r[k] == r[1..][k - 1];
      r
  }

  /** Replacing the root block at index i swaps its ids for the new block's. */
  lemma {:induction false} ReplaceRootIds(bs: seq<Block>, i: int, nb: Block)
    requires 0 <= i < |bs|
    ensures multiset(Ids(bs[i := nb])) + multiset(IdsOf(bs[i])) == multiset(Ids(bs)) + multiset(IdsOf(nb))
  {
    var a, c := bs[..i], bs[i + 1..];
    assert bs == a + [bs[i]] + c;
    assert bs[i := nb] == a + [nb] + c;
    IdsConcat(a + [bs[i]], c);
    IdsConcat(a, [bs[i]]);
    IdsConcat(a + [nb], c);
    IdsConcat(a, [nb]);
    assert Ids([bs[i]]) == IdsOf(bs[i]) && Ids([nb]) == IdsOf(nb);
  }

  /** With unique ids the parent is the one root block at index i, and the
      tree's ids change by exactly the old and the new inner lists' ids. */
  lemma ReplaceInnerAt(bs: seq<Block>, i: int, newInner: seq<Block>)
    requires UniqueIds(bs)
    requires 0 <= i < |bs|
    ensures ReplaceInner(bs, bs[i].id, newInner) == bs[i := bs[i].(innerBlocks := HasInner(newInner))]
    ensures multiset(Ids(ReplaceInner(bs, bs[i].id, newInner))) + multiset(InnerIds(bs[i].innerBlocks))
         == multiset(Ids(bs)) + multiset(Ids(newInner))
  {
    var pid := bs[i].id;
    var r := ReplaceInner(bs, pid, newInner);
    var nb := bs[i].(innerBlocks := HasInner(newInner));
    forall j | 0 <= j < |bs| && j != i ensures bs[j].id != pid {
      RootsDisjoint(bs, i, j);
      assert pid == IdsOf(bs[i])[0] && bs[j].id == IdsOf(bs[j])[0];
      assert pid in IdsOf(bs[i]) && bs[j].id in IdsOf(bs[j]);
    }
    assert r == bs[i := nb];
    ReplaceRootIds(bs, i, nb);
    CancelHead(Ids(r), Ids(bs), pid, InnerIds(bs[i].innerBlocks), Ids(newInner));
  }

  lemma CancelHead(after: seq<string>, before: seq<string>, x: string, gone: seq<string>, added: seq<string>)
    requires multiset(after) + multiset([x] + gone) == multiset(before) + multiset([x] + added)
    ensures multiset(after) + multiset(gone) == multiset(before) + multiset(added)
  {
    assert multiset([x] + gone) == multiset{x} + multiset(gone);
    assert multiset([x] + added) == multiset{x} + multiset(added);
    forall y ensures (multiset(after) + multiset(gone))[y] == (multiset(before) + multiset(added))[y] {
      assert (multiset(after) + multiset([x] + gone))[y] == (multiset(before) + multiset([x] + added))[y];
    }
  }
}
