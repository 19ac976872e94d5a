/** Views of a block tree used by every operation: the pre-order list of its
    nodes and of their ids, id uniqueness, the "only Columns has children"
    shape rule, the id-erasing projection onto templates, and the root-level
    `findIndex` by id. */
module Tree {
  import opened Types

  /** Every node of a block list, in pre-order (a node before its children). */
  function Nodes(bs: seq<Block>): seq<Block>
    decreases bs
  {
    if bs == [] then [] else NodesOf(bs[0]) + Nodes(bs[1..])
  }

  function NodesOf(b: Block): seq<Block>
    decreases b
  {
    [b] + (match b.innerBlocks case NoInner => [] case HasInner(kids) => Nodes(kids))
  }

  /** The ids of every node of a block list, in pre-order. */
  function Ids(bs: seq<Block>): seq<string>
    decreases bs
  {
    if bs == [] then [] else IdsOf(bs[0]) + Ids(bs[1..])
  }

  function IdsOf(b: Block): (r: seq<string>)
    decreases b
    ensures |r| > 0 && r[0] == b.id
  {
    [b.id] + InnerIds(b.innerBlocks)
  }

  function InnerIds(inner: Inner): seq<string>
    decreases inner
  {
    match inner case NoInner => [] case HasInner(kids) => Ids(kids)
  }

  /** No string occurs twice in `s`. */
  ghost predicate Distinct(s: seq<string>)
  {
    forall x :: multiset(s)[x] <= 1
  }

  /** The tree-wide invariant: no two nodes, at any depth, share an id. */
  ghost predicate UniqueIds(bs: seq<Block>)
  {
    Distinct(Ids(bs))
  }

  /** Only Columns blocks carry an inner list, at every depth. */
  predicate WellFormed(bs: seq<Block>)
    decreases bs
  {
    bs == [] || (WellFormedBlock(bs[0]) && WellFormed(bs[1..]))
  }

  predicate WellFormedBlock(b: Block)
    decreases b
  {
    match b.innerBlocks
    case NoInner => true
    case HasInner(kids) => b.blockType == Columns && WellFormed(kids)
  }

  /** The same rule for templates: only a Columns template has children. */
  predicate PatternsWellFormed(ps: seq<PatternBlock>)
    decreases ps
  {
    ps == [] || (PatternBlockWellFormed(ps[0]) && PatternsWellFormed(ps[1..]))
  }

  predicate PatternBlockWellFormed(pb: PatternBlock)
    decreases pb
  {
    match pb.innerBlocks
    case NoPatternInner => true
    case HasPatternInner(kids) => pb.blockType == Columns && PatternsWellFormed(kids)
  }

  /** Drops every id: the template a block is an instance of. */
  function ToPattern(b: Block): PatternBlock
    decreases b
  {
    PatternBlock(b.blockType, b.attributes,
      match b.innerBlocks
      case NoInner => NoPatternInner
      case HasInner(kids) => HasPatternInner(ToPatterns(kids)))
  }

  function ToPatterns(bs: seq<Block>): seq<PatternBlock>
    decreases bs
  {
    if bs == [] then [] else [ToPattern(bs[0])] + ToPatterns(bs[1..])
  }

  /** The number of nodes a template produces. */
  function PatternSize(pb: PatternBlock): nat
    decreases pb
  {
    1 + match pb.innerBlocks case NoPatternInner => 0 case HasPatternInner(kids) => PatternsSize(kids)
  }

  function PatternsSize(ps: seq<PatternBlock>): nat
    decreases ps
  {
    if ps == [] then 0 else PatternSize(ps[0]) + PatternsSize(ps[1..])
  }

  /** `Array.prototype.findIndex(b => b.id === id)`: the first index holding
      the id, or -1. */
  function IndexOf(list: seq<Block>, id: string): (k: int)
    ensures -1 <= k < |list|
    ensures k >= 0 ==> list[k].id == id
    ensures forall j :: 0 <= j < |list| && (k < 0 || j < k) ==> list[j].id != id
  {
    if list == [] then -1
    else if list[0].id == id then 0
    else var k := IndexOf(list[1..], id); if k < 0 then -1 else k + 1
  }

  lemma {:induction false} IdsConcat(a: seq<Block>, b: seq<Block>)
    ensures Ids(a + b) == Ids(a) + Ids(b)
  {
    if a == [] {
      assert a + b == b;
    } else {
      assert (a + b)[0] == a[0];
      assert (a + b)[1..] == a[1..] + b;
      IdsConcat(a[1..], b);
    }
  }

  lemma {:induction false} NodesConcat(a: seq<Block>, b: seq<Block>)
    ensures Nodes(a + b) == Nodes(a) + Nodes(b)
  {
    if a == [] {
      assert a + b == b;
    } else {
      assert (a + b)[0] == a[0];
      assert (a + b)[1..] == a[1..] + b;
      NodesConcat(a[1..], b);
    }
  }

  /** The id list is the id of each node of the pre-order node list. */
  lemma {:induction false} IdsAreNodeIds(bs: seq<Block>)
    ensures |Ids(bs)| == |Nodes(bs)|
    ensures forall k :: 0 <= k < |Ids(bs)| ==> Ids(bs)[k] == Nodes(bs)[k].id
    decreases bs
  {
    if bs != [] {
      IdsOfAreNodeIds(bs[0]);
      IdsAreNodeIds(bs[1..]);
    }
  }

  lemma {:induction false} IdsOfAreNodeIds(b: Block)
    ensures |IdsOf(b)| == |NodesOf(b)|
    ensures forall k :: 0 <= k < |IdsOf(b)| ==> IdsOf(b)[k] == NodesOf(b)[k].id
    decreases b
  {
    match b.innerBlocks
    case NoInner =>
    case HasInner(kids) => IdsAreNodeIds(kids);
  }

  /** A block produces as many ids as its template has nodes. */
  lemma {:induction false} IdsOfSize(b: Block)
    ensures |IdsOf(b)| == PatternSize(ToPattern(b))
    decreases b
  {
    match b.innerBlocks
    case NoInner =>
    case HasInner(kids) => IdsSize(kids);
  }

  lemma {:induction false} IdsSize(bs: seq<Block>)
    ensures |Ids(bs)| == PatternsSize(ToPatterns(bs))
    decreases bs
  {
    if bs != [] {
      IdsOfSize(bs[0]);
      IdsSize(bs[1..]);
    }
  }

  lemma DistinctConcat(a: seq<string>, b: seq<string>)
    ensures Distinct(a + b) <==> Distinct(a) && Distinct(b) && (forall x :: x in a ==> x !in b)
  {
    assert multiset(a + b) == multiset(a) + multiset(b);
    if Distinct(a + b) {
      forall x ensures multiset(a)[x] <= 1 && multiset(b)[x] <= 1 && (x in a ==> x !in b) {
        assert multiset(a + b)[x] == multiset(a)[x] + multiset(b)[x];
      }
    }
    if Distinct(a) && Distinct(b) && (forall x :: x in a ==> x !in b) {
      forall x ensures multiset(a + b)[x] <= 1 {
        assert multiset(a + b)[x] == multiset(a)[x] + multiset(b)[x];
        if x in a {
          assert x !in b;
          assert multiset(b)[x] == 0;
        } else {
          assert multiset(a)[x] == 0;
        }
      }
    }
  }

  /** Pairwise reading of Distinct: two positions never hold the same id. */
  lemma {:induction false} DistinctPairwise(s: seq<string>)
    ensures Distinct(s) <==> forall i, j :: 0 <= i < j < |s| ==> s[i] != s[j]
  {
    if s == [] {
    } else {
      DistinctPairwise(s[1..]);
      assert s == [s[0]] + s[1..];
      DistinctConcat([s[0]], s[1..]);
      if forall i, j :: 0 <= i < j < |s| ==> s[i] != s[j] {
        assert forall i, j :: 0 <= i < j < |s[1..]| ==> s[1..][i] != s[1..][j] by {
          forall i, j | 0 <= i < j < |s[1..]| ensures s[1..][i] != s[1..][j] {
            assert s[1..][i] == s[i + 1] && s[1..][j] == s[j + 1];
          }
        }
        forall j | 0 <= j < |s[1..]| ensures s[1..][j] != s[0] {
          assert s[1..][j] == s[j + 1];
        }
      }
      if Distinct(s) {
        forall i, j | 0 <= i < j < |s| ensures s[i] != s[j] {
          if i == 0 {
            assert s[j] == s[1..][j - 1];
            assert s[0] in [s[0]];
            assert s[j] in s[1..];
          } else {
            assert s[i] == s[1..][i - 1] && s[j] == s[1..][j - 1];
          }
        }
      }
    }
  }

  /** The first index of a concatenation is found in the left part if it
      is there, else in the right part shifted by the left part's length. */
  lemma {:induction false} IndexOfConcat(a: seq<Block>, b: seq<Block>, id: string)
    ensures IndexOf(a + b, id) ==
      if IndexOf(a, id) >= 0 then IndexOf(a, id)
      else if IndexOf(b, id) >= 0 then |a| + IndexOf(b, id)
      else -1
  {
    if a == [] {
      assert a + b == b;
    } else {
      assert (a + b)[0] == a[0];
      assert (a + b)[1..] == a[1..] + b;
      IndexOfConcat(a[1..], b, id);
    }
  }

  /** Every root block's id is among the tree's ids. */
  lemma {:induction false} RootIdIn(list: seq<Block>, k: int)
    requires 0 <= k < |list|
    ensures list[k].id in Ids(list)
    ensures forall x :: x in IdsOf(list[k]) ==> x in Ids(list)
  {
    if k > 0 {
      RootIdIn(list[1..], k - 1);
    }
  }

  /** An id of the tree belongs to the subtree of some root block. */
  lemma {:induction false} IdInSomeRoot(list: seq<Block>, x: string) returns (k: int)
    requires x in Ids(list)
    ensures 0 <= k < |list| && x in IdsOf(list[k])
  {
    if x in IdsOf(list[0]) {
      k := 0;
    } else {
      var j := IdInSomeRoot(list[1..], x);
      k := j + 1;
    }
  }

  /** The elements of `s` that do not occur in `drop`, in their order. */
  function Without(s: seq<string>, drop: seq<string>): (r: seq<string>)
    ensures forall x :: x in r <==> x in s && x !in drop
  {
    if s == [] then []
    else (if s[0] in drop then [] else [s[0]]) + Without(s[1..], drop)
  }

  lemma {:induction false} WithoutConcat(a: seq<string>, b: seq<string>, drop: seq<string>)
    ensures Without(a + b, drop) == Without(a, drop) + Without(b, drop)
  {
    if a == [] {
      assert a + b == b;
    } else {
      assert (a + b)[0] == a[0];
      assert (a + b)[1..] == a[1..] + b;
      WithoutConcat(a[1..], b, drop);
    }
  }

  lemma {:induction false} WithoutNothing(s: seq<string>, drop: seq<string>)
    requires forall x :: x in s ==> x !in drop
    ensures Without(s, drop) == s
  {
    if s != [] {
      WithoutNothing(s[1..], drop);
    }
  }

  lemma {:induction false} WithoutEverything(s: seq<string>, drop: seq<string>)
    requires forall x :: x in s ==> x in drop
    ensures Without(s, drop) == []
  {
    if s != [] {
      WithoutEverything(s[1..], drop);
    }
  }

  /** In a tree with unique ids, the subtrees of two different root blocks
      share no id. */
  lemma RootsDisjoint(bs: seq<Block>, i: int, j: int)
    requires UniqueIds(bs)
    requires 0 <= i < |bs| && 0 <= j < |bs| && i != j
    ensures forall x :: x in IdsOf(bs[i]) ==> x !in IdsOf(bs[j])
  {
    var lo, hi := if i < j then i else j, if i < j then j else i;
    var a, c := bs[..hi], bs[hi..];
    SplitAt(bs, hi);
    IdsConcat(a, c);
    DistinctConcat(Ids(a), Ids(c));
    RootIdIn(a, lo);
    RootIdIn(c, 0);
    assert a[lo] == bs[lo] && c[0] == bs[hi];
  }

  /** In a tree with unique ids, each root block's subtree has unique ids. */
  lemma RootUnique(bs: seq<Block>, i: int)
    requires UniqueIds(bs)
    requires 0 <= i < |bs|
    ensures Distinct(IdsOf(bs[i]))
  {
    SplitAt(bs, i);
    IdsConcat(bs[..i], bs[i..]);
    DistinctConcat(Ids(bs[..i]), Ids(bs[i..]));
    assert Ids(bs[i..]) == IdsOf(bs[i]) + Ids(bs[i + 1..]) by {
      assert bs[i..][0] == bs[i] && bs[i..][1..] == bs[i + 1..];
    }
    DistinctConcat(IdsOf(bs[i]), Ids(bs[i + 1..]));
  }

  /** The ids of a container's children are unique, and none of them is the
      container's own, when the container's subtree has unique ids. */
  lemma ChildrenUnique(b: Block)
    requires Distinct(IdsOf(b)) && b.innerBlocks.HasInner?
    ensures Distinct(Ids(b.innerBlocks.blocks))
    ensures b.id !in Ids(b.innerBlocks.blocks)
  {
    assert IdsOf(b) == [b.id] + Ids(b.innerBlocks.blocks);
    DistinctConcat([b.id], Ids(b.innerBlocks.blocks));
  }

  /** An id that no root block's subtree contains is not in the tree. */
  lemma NotInAnyRoot(bs: seq<Block>, x: string)
    requires forall j :: 0 <= j < |bs| ==> x !in IdsOf(bs[j])
    ensures x !in Ids(bs)
  {
    if x in Ids(bs) {
      var k := IdInSomeRoot(bs, x);
      assert false;
    }
  }

  lemma SplitAt<T>(s: seq<T>, i: int)
    requires 0 <= i <= |s|
    ensures s[..i] + s[i..] == s
  {
  }
}
