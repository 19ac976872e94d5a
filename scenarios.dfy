/** Concrete runs of the editor on its opening document, and the two
    templates the sidebar offers (components/Sidebar.tsx:47-81). */
module Scenarios {
  import opened Types
  import opened Tree
  import opened Lookup
  import opened Engine
  import opened Ordering
  import opened SortableBlock
  import opened Fresh
  import opened Editing
  import opened Shape

  function Leaf(t: BlockType, a: Attributes): PatternBlock {
    PatternBlock(t, a, NoPatternInner)
  }

  /** "Feature Grid": a heading over two equal columns of text. */
  function FeatureGrid(): Pattern {
    Pattern("feature-grid", "Feature Grid", "2 Columns feature list", [
      Leaf(Heading, NoAttributes.(level := Some(2), content := Some("Tính năng chính"))),
      PatternBlock(Columns, NoAttributes.(columns := Some(2), layout := Some(Equal), gap := Some(30)),
        HasPatternInner([
          Leaf(Paragraph, NoAttributes.(content := Some("Tốc độ xử lý vượt trội với AI tích hợp sẵn trong trình soạn thảo."))),
          Leaf(Paragraph, NoAttributes.(content := Some("Giao diện trực quan giúp bạn tập trung vào nội dung thay vì kỹ thuật.")))]))])
  }

  /** "Hero Image Split": an image beside a heading. */
  function HeroImageSplit(): Pattern {
    Pattern("hero-with-image", "Hero Image Split", "Image left, Text right", [
      PatternBlock(Columns, NoAttributes.(columns := Some(2), layout := Some(Equal), gap := Some(40)),
        HasPatternInner([
          Leaf(Image, NoAttributes.(url := Some("https://picsum.photos/600/400"), caption := Some("Product Shot"))),
          Leaf(Heading, NoAttributes.(level := Some(2), content := Some("Nâng tầm sáng tạo")))]))])
  }

  /** Both sidebar templates obey the shape rule: only their Columns
      templates have children. */
  lemma TemplatesWellFormed()
    ensures PatternsWellFormed(FeatureGrid().blocks)
    ensures PatternsWellFormed(HeroImageSplit().blocks)
  {
    var fg, hs := FeatureGrid().blocks, HeroImageSplit().blocks;
    var fgKids, hsKids := fg[1].innerBlocks.blocks, hs[0].innerBlocks.blocks;
    PatternsWellFormedEach(fgKids);
    PatternsWellFormedEach(hsKids);
    assert PatternBlockWellFormed(fg[1]) && PatternBlockWellFormed(hs[0]);
    PatternsWellFormedEach(fg);
    PatternsWellFormedEach(hs);
  }

  lemma {:induction false} LeavesSize(ps: seq<PatternBlock>)
    requires forall k :: 0 <= k < |ps| ==> ps[k].innerBlocks.NoPatternInner?
    ensures PatternsSize(ps) == |ps|
  {
    if ps != [] {
      LeavesSize(ps[1..]);
    }
  }

  /** Feature Grid makes two root blocks and four nodes in all. */
  lemma FeatureGridSize()
    ensures |FeatureGrid().blocks| == 2 && PatternsSize(FeatureGrid().blocks) == 4
  {
    var ps := FeatureGrid().blocks;
    LeavesSize(ps[1].innerBlocks.blocks);
    assert PatternSize(ps[1]) == 3;
    assert ps[1..] == [ps[1]];
    assert PatternsSize([ps[1]]) == 3;
  }

  /** Hero Image Split makes one root block and three nodes in all. */
  lemma HeroImageSplitSize()
    ensures |HeroImageSplit().blocks| == 1 && PatternsSize(HeroImageSplit().blocks) == 3
  {
    var ps := HeroImageSplit().blocks;
    LeavesSize(ps[0].innerBlocks.blocks);
    assert PatternSize(ps[0]) == 3;
  }

  /** Inserting Feature Grid into the opening document: two new roots at
      the end, instances of the template, four new ids, the heading
      selected. */
  method AddFeatureGrid() returns (e: Editor)
    ensures |e.blocks| == 4 && e.blocks[..2] == InitialBlocks()
    ensures ToPatterns(e.blocks[2..]) == FeatureGrid().blocks
    ensures |Ids(e.blocks)| == 8 && e.Valid()
    ensures e.selectedBlockId == Some(e.blocks[2].id)
  {
    e := new Editor();
    var before := e.blocks;
    InitialIds();
    var p := FeatureGrid();
    FeatureGridSize();
    TemplatesWellFormed();
    e.AddPattern(p);
    var added := InstantiateAll(p.blocks, FreshIds("block-", Ids(before), PatternsSize(p.blocks)));
    AppendedParts(before, added);
  }

  /** The two parts of an appended list, and its ids. */
  lemma AppendedParts(bs: seq<Block>, added: seq<Block>)
    ensures (bs + added)[..|bs|] == bs && (bs + added)[|bs|..] == added
    ensures Ids(bs + added) == Ids(bs) + Ids(added)
  {
    IdsConcat(bs, added);
  }

  /** A new Spacer starts 40 high; after the inspector sets 100 the export
      shows 100. */
  method SpacerHeight() returns (e: Editor)
    ensures |e.blocks| == 3 && e.blocks[2].blockType == Spacer
    ensures e.ExportSchema().version == "1.2.0"
    ensures e.ExportSchema().blocks[2].attributes.height == Some(100)
  {
    e := new Editor();
    InitialBlocksValid();
    e.AddBlock(Spacer);
    var bs := e.blocks;
    var id := bs[2].id;
    assert bs[2].attributes.height == Some(40);
    var patch := NoAttributes.(height := Some(100));
    forall j | 0 <= j < |bs| && j != 2 ensures id !in IdsOf(bs[j]) {
      RootsDisjoint(bs, 2, j);
      assert id == IdsOf(bs[2])[0];
    }
    UpdateAtRoot(bs, 2, id, patch);
    e.UpdateBlock(id, patch);
    assert e.blocks[2] == bs[2].(attributes := Merge(bs[2].attributes, patch));
  }

  /** Duplicating the paragraph inside the opening document's Columns
      block: a third child at the end, an instance of the same template
      with an id new to the document; nothing else moves. */
  method DuplicateInnerParagraph() returns (e: Editor)
    ensures |e.blocks| == 2 && e.blocks[0] == InitialHeading()
    ensures var kids := Children(e.blocks[1]);
      && |kids| == 3 && kids[..2] == [InitialParagraph(), InitialImage()]
      && ToPattern(kids[2]) == ToPattern(InitialParagraph())
      && kids[2].id !in Ids(InitialBlocks())
    ensures e.Valid()
  {
    e := new Editor();
    InitialDuplicate();
    e.InnerDuplicateAt(1, "inner-1");
  }

  lemma InitialDuplicate()
    ensures var bs := InitialBlocks();
      var d := InnerDuplicate(bs[1], "inner-1", Ids(bs));
      && d.Some?
      && var r := ReplaceInner(bs, bs[1].id, d.value);
      && |r| == 2 && r[0] == InitialHeading()
      && var kids := Children(r[1]);
      && |kids| == 3 && kids[..2] == [InitialParagraph(), InitialImage()]
      && ToPattern(kids[2]) == ToPattern(InitialParagraph())
      && kids[2].id !in Ids(InitialBlocks())
  {
    var bs := InitialBlocks();
    InitialBlocksValid();
    InitialIds();
    var c := bs[1];
    assert Children(c) == [InitialParagraph(), InitialImage()];
    assert IndexOf(Children(c), "inner-1") == 0;
    var d := InnerDuplicate(c, "inner-1", Ids(bs)).value;
    ReplaceInnerAt(bs, 1, d);
    var copy := d[2];
    assert copy.id == IdsOf(copy)[0];
  }

  /** Dropping the Columns block on the heading swaps the two roots. */
  method DragColumnsUp() returns (e: Editor)
    ensures e.blocks == [InitialColumns(), InitialHeading()]
  {
    e := new Editor();
    DragSwapsRoots();
    e.HandleDragEnd("initial-2", Some("initial-1"));
  }

  lemma DragSwapsRoots()
    ensures DragEnd(InitialBlocks(), "initial-2", Some("initial-1")) == [InitialColumns(), InitialHeading()]
  {
    var bs := InitialBlocks();
    assert IndexOf(bs, "initial-2") == 1 && IndexOf(bs, "initial-1") == 0;
    var r := DragEnd(bs, "initial-2", Some("initial-1"));
    assert r[0] == bs[1];
    assert RemoveAt(r, 0) == RemoveAt(bs, 1);
    assert RemoveAt(r, 0)[0] == r[1] && RemoveAt(bs, 1)[0] == bs[0];
  }

  /** Clicking the Columns block, then deleting it: the block goes with
      its two children and the selection is cleared. */
  method RemoveSelectedColumns() returns (e: Editor)
    ensures e.blocks == [InitialHeading()]
    ensures e.selectedBlockId == None
    ensures e.Valid()
  {
    e := new Editor();
    e.Select(Some("initial-2"));
    RemoveColumnsRoot();
    e.RemoveBlock("initial-2");
  }

  /** Clicking the heading, then deleting the Columns block (its own
      delete button, which needs no selection): the heading stays selected
      and the inspector still shows it. */
  method RemoveColumnsBesideSelection() returns (e: Editor)
    ensures e.blocks == [InitialHeading()]
    ensures e.selectedBlockId == Some("initial-1")
    ensures SelectedBlock(e.blocks, e.selectedBlockId) == Some(InitialHeading())
  {
    e := new Editor();
    e.Select(Some("initial-1"));
    RemoveColumnsRoot();
    e.RemoveBlock("initial-2");
  }

  lemma RemoveColumnsRoot()
    ensures RemoveBlocks(InitialBlocks(), "initial-2") == [InitialHeading()]
    ensures Ids([InitialHeading()]) == ["initial-1"]
    ensures SelectedBlock([InitialHeading()], Some("initial-1")) == Some(InitialHeading())
  {
    var h, c := InitialHeading(), InitialColumns();
    assert InitialBlocks() == [h] + [c];
    RemoveConcat([h], [c], "initial-2");
    RemoveOne(h, "initial-2");
    RemoveOne(c, "initial-2");
    assert Ids([h]) == IdsOf(h) + Ids([]);
  }
}
