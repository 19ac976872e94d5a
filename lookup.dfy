/** Finding a block by id anywhere in the tree, and resolving the selection
    (App.tsx:71-84). */
module Lookup {
  import opened Types
  import opened Tree

  /** Depth-first search of one block: the block itself, then its children. */
  function FindIn(b: Block, id: string): (r: Option<Block>)
    decreases b
    ensures r.Some? ==> r.value.id == id
    ensures r.None? <==> id !in IdsOf(b)
  {
    if b.id == id then Some(b)
    else match b.innerBlocks
      case NoInner => None
      case HasInner(kids) => Find(kids, id)
  }

  /** Depth-first search of a block list, root blocks in order. */
  function Find(bs: seq<Block>, id: string): (r: Option<Block>)
    decreases bs
    ensures r.Some? ==> r.value.id == id
    ensures r.None? <==> id !in Ids(bs)
  {
    if bs == [] then None
    else match FindIn(bs[0], id)
      case Some(found) => Some(found)
      case None => Find(bs[1..], id)
  }

  /** `findBlockById`: a loop over the list that returns as soon as a block,
      or a block found among a block's children, carries the id. */
  method FindBlockById(blocks: seq<Block>, id: string) returns (r: Option<Block>)
    decreases blocks
    ensures r == Find(blocks, id)
  {
    var i := 0;
    while i < |blocks|
      invariant 0 <= i <= |blocks|
      invariant Find(blocks, id) == Find(blocks[i..], id)
    {
      var block := blocks[i];
      assert blocks[i..][0] == block && blocks[i..][1..] == blocks[i + 1..];
      if block.id == id {
        return Some(block);
      }
      if block.innerBlocks.HasInner? {
        var found := FindBlockById(block.innerBlocks.blocks, id);
        if found.Some? {
          return found;
        }
      }
      i := i + 1;
    }
    assert blocks[i..] == [];
    return None;
  }

  /** Find returns the first node, in pre-order, that carries the id. */
  lemma {:induction false} FindIsFirstInPreorder(bs: seq<Block>, id: string)
    ensures var k := IndexOf(Nodes(bs), id);
      Find(bs, id) == if k < 0 then None else Some(Nodes(bs)[k])
    decreases bs
  {
    if bs != [] {
      FindInIsFirstInPreorder(bs[0], id);
      FindIsFirstInPreorder(bs[1..], id);
      IndexOfConcat(NodesOf(bs[0]), Nodes(bs[1..]), id);
      var k := IndexOf(NodesOf(bs[0]), id);
      if k >= 0 {
        assert Nodes(bs)[k] == NodesOf(bs[0])[k];
      } else if IndexOf(Nodes(bs[1..]), id) >= 0 {
        assert Nodes(bs)[|NodesOf(bs[0])| + IndexOf(Nodes(bs[1..]), id)]
            == Nodes(bs[1..])[IndexOf(Nodes(bs[1..]), id)];
      }
    }
  }

  lemma {:induction false} FindInIsFirstInPreorder(b: Block, id: string)
    ensures var k := IndexOf(NodesOf(b), id);
      FindIn(b, id) == if k < 0 then None else Some(NodesOf(b)[k])
    decreases b
  {
    match b.innerBlocks
    case NoInner =>
    case HasInner(kids) =>
      FindIsFirstInPreorder(kids, id);
      IndexOfConcat([b], Nodes(kids), id);
      if b.id != id && IndexOf(Nodes(kids), id) >= 0 {
        assert NodesOf(b)[1 + IndexOf(Nodes(kids), id)] == Nodes(kids)[IndexOf(Nodes(kids), id)];
      }
  }

  /** The block the inspector shows: none while nothing (or the empty id,
      which is falsy) is selected, else the block found for the selected id. */
  function SelectedBlock(blocks: seq<Block>, selectedId: Option<string>): (r: Option<Block>)
    ensures r.Some? ==> selectedId == Some(r.value.id)
    ensures r.None? <==> selectedId.None? || selectedId.value == "" || selectedId.value !in Ids(blocks)
  {
    if selectedId.None? || selectedId.value == "" then None else Find(blocks, selectedId.value)
  }
}
