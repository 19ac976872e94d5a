/** The block document's data model: block kinds, the attribute record,
    blocks with their optional children, the exported editor state and the
    id-less pattern templates (types.ts). */
module Types {

  datatype Option<+T> = None | Some(value: T)

  /** The closed set of block kinds (types.ts:2-9). */
  datatype BlockType = Code | Heading | Paragraph | Image | Spacer | Columns

  /** The string value each kind carries in the exported document. */
  function TypeTag(t: BlockType): string
  {
    match t
    case Code => "code"
    case Heading => "heading"
    case Paragraph => "paragraph"
    case Image => "image"
    case Spacer => "spacer"
    case Columns => "columns"
  }

  const TypeTags: seq<string> := ["code", "heading", "paragraph", "image", "spacer", "columns"]

  /** Reads a kind back from its tag: exactly the six tags are accepted. */
  function ParseTypeTag(s: string): (r: Option<BlockType>)
    ensures r.Some? <==> s in TypeTags
    ensures r.Some? ==> TypeTag(r.value) == s
    ensures forall t: BlockType :: TypeTag(t) == s ==> r == Some(t)
  {
    if s == "code" then Some(Code)
    else if s == "heading" then Some(Heading)
    else if s == "paragraph" then Some(Paragraph)
    else if s == "image" then Some(Image)
    else if s == "spacer" then Some(Spacer)
    else if s == "columns" then Some(Columns)
    else None
  }

  /** A heading level: one of 1, 2, 3, 4 (types.ts:15). */
  type HeadingLevel = n: int | 1 <= n <= 4 witness 1

  /** Column ratio keywords (types.ts:23). */
  datatype Layout = Equal | Split70_30 | Split30_70 | Split25_50_25 | WideCenter

  function LayoutKeyword(l: Layout): string
  {
    match l
    case Equal => "equal"
    case Split70_30 => "70-30"
    case Split30_70 => "30-70"
    case Split25_50_25 => "25-50-25"
    case WideCenter => "wide-center"
  }

  const LayoutKeywords: seq<string> := ["equal", "70-30", "30-70", "25-50-25", "wide-center"]

  function ParseLayout(s: string): (r: Option<Layout>)
    ensures r.Some? <==> s in LayoutKeywords
    ensures r.Some? ==> LayoutKeyword(r.value) == s
    ensures forall l: Layout :: LayoutKeyword(l) == s ==> r == Some(l)
  {
    if s == "equal" then Some(Equal)
    else if s == "70-30" then Some(Split70_30)
    else if s == "30-70" then Some(Split30_70)
    else if s == "25-50-25" then Some(Split25_50_25)
    else if s == "wide-center" then Some(WideCenter)
    else None
  }

  /** Vertical alignment keywords of a Columns container (types.ts:24). */
  datatype VerticalAlign = Start | Center | End

  function AlignKeyword(v: VerticalAlign): string
  {
    match v
    case Start => "start"
    case Center => "center"
    case End => "end"
  }

  const AlignKeywords: seq<string> := ["start", "center", "end"]

  function ParseAlign(s: string): (r: Option<VerticalAlign>)
    ensures r.Some? <==> s in AlignKeywords
    ensures r.Some? ==> AlignKeyword(r.value) == s
    ensures forall v: VerticalAlign :: AlignKeyword(v) == s ==> r == Some(v)
  {
    if s == "start" then Some(Start)
    else if s == "center" then Some(Center)
    else if s == "end" then Some(End)
    else None
  }

  /** Font size keywords (types.ts:31). */
  datatype FontSize = Small | Medium | Large | XLarge

  /** The attribute bag shared by all block kinds; None is an absent key
      (types.ts:11-32). Numbers are modelled as integers. */
  datatype Attributes = Attributes(
    content: Option<string>,
    language: Option<string>,
    level: Option<HeadingLevel>,
    url: Option<string>,
    caption: Option<string>,
    height: Option<int>,
    columns: Option<int>,
    gap: Option<int>,
    layout: Option<Layout>,
    verticalAlign: Option<VerticalAlign>,
    backgroundColor: Option<string>,
    textColor: Option<string>,
    padding: Option<int>,
    borderRadius: Option<int>,
    fontSize: Option<FontSize>)

  /** The attribute bag with no key set; as a patch, the empty patch `{}`. */
  const NoAttributes: Attributes :=
    Attributes(None, None, None, None, None, None, None, None, None, None, None, None, None, None, None)

  /** The optional `innerBlocks` list of a block. */
  datatype Inner = NoInner | HasInner(blocks: seq<Block>)

  /** A node of the document tree (types.ts:34-39). */
  datatype Block = Block(id: string, blockType: BlockType, attributes: Attributes, innerBlocks: Inner)

  /** The exported document: a version tag and the root list (types.ts:41-44). */
  datatype EditorState = EditorState(version: string, blocks: seq<Block>)

  /** The optional `innerBlocks` list of a template. */
  datatype PatternInner = NoPatternInner | HasPatternInner(blocks: seq<PatternBlock>)

  /** A block template: a block without an id, recursively (types.ts:46-48). */
  datatype PatternBlock = PatternBlock(blockType: BlockType, attributes: Attributes, innerBlocks: PatternInner)

  /** A named template of several blocks (types.ts:50-55); `label` is a
      reserved word in Dafny, hence `labelText`. */
  datatype Pattern = Pattern(id: string, labelText: string, description: string, blocks: seq<PatternBlock>)
}
