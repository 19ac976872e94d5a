# Block layout editor: the document engine

This project models the document engine of a block-based page editor in Dafny. Its parts:

- **Blocks.** A document is an ordered list of typed blocks: code, heading, paragraph, image, spacer and columns. A Columns block holds a list of child blocks of its own.
- **The editor state.** It is the root list plus the id of the selected block.
- **The editor's operations:**
  - lookup;
  - adding a block;
  - deep duplication;
  - inserting a template ("pattern");
  - merging an attribute patch;
  - removal at any depth;
  - replacing a root container's children;
  - reordering the root list by drag and drop.
- **A container's callbacks.** A root Columns container passes callbacks to its children. They edit its own child list and hand the new list back to the editor.
- **Small pure mappings.** These compute the grid template, the alignment value, the row count of the code editor and the pixel strings of the inline style.

The modules are:

- `Types`: the data model.
- `Tree`: node and id lists, id uniqueness, the rule that only Columns blocks have children, templates.
- `Lookup`: `findBlockById` and the selection.
- `Engine`: the tree operations of `App.tsx`.
- `Ordering`: `arrayMove` and `handleDragEnd`.
- `Fresh`: the id supplier.
- `Text`: integer rendering and `split`.
- `Shape`: why every operation keeps the rule that only Columns blocks have children.
- `SortableBlock`: the canvas component's computations and callbacks (components/SortableBlock.tsx).
- `Editing`: the `Editor` class, with the state and its handlers.
- `Scenarios`: concrete runs on the opening document and the sidebar's two templates.

Several things are modelled as follows:

- **State.** The editor's React state is the class `Editing.Editor`, with fields `blocks` and `selectedBlockId`. Each handler is a method that replaces them. `Valid()` says that no two nodes share an id and that only Columns blocks carry a child list (`Tree.WellFormed`). The constructor establishes it. Every handler preserves it, with two qualifications. `AddPattern` preserves the child-list rule when the template obeys it, as both sidebar templates do. `UpdateInnerBlocks` is the raw state setter behind the container callbacks and promises neither half by itself; the four callbacks that call it (`InnerUpdateAt`, `InnerRemoveAt`, `InnerDuplicateAt`, `AddInnerBlockAt`) each preserve `Valid()`.
- **Ids.** Ids come from `Fresh.FreshIds`, which is guaranteed to return ids that are distinct and absent from the tree. The application mints ids from the clock and a random number, which carries no such guarantee.

Two statements made about this program do not match its code. The model follows the code:

- **Drop round trip.** Dropping block a on c and then c on a does not restore the order. From [a, b, c] the first drop gives [b, c, a] and the second gives [b, a, c]; this is `Ordering.DragBackDoesNotRestore`. Moving back by index does undo a move (`Ordering.ArrayMoveInverse`), but the second drop uses the ids' new indices.
- **Feature Grid size.** The "Feature Grid" template creates two root blocks, four nodes in all, not three blocks (`Scenarios.FeatureGridSize`).

## Model

| member | source | states |
|---|---|---|
| Types.ParseTypeTag | types.ts:2-9 | exactly the six tags are block kinds; a tag reads back to the kind that renders to it |
| Types.ParseLayout | types.ts:23 | exactly the five layout keywords are accepted, each read back to its own layout |
| Types.ParseAlign | types.ts:24 | exactly start, center and end are accepted, each read back to its own alignment |
| Tree.IdsOf | types.ts:34-39 | a block's ids in pre-order start with its own id |
| Tree.IndexOf | App.tsx:90-91 | `findIndex`: -1 when no block of the list has the id, else the first index holding it |
| Tree.DistinctConcat | App.tsx:143 | a joined id list is duplicate-free iff both parts are and they share no id |
| Tree.RootsDisjoint | App.tsx:193-195 | with unique ids, two root blocks' subtrees share no id |
| Lookup.FindIn | App.tsx:73-77 | searching a block gives a node with the id, and nothing exactly when the id is not in its subtree |
| Lookup.Find | App.tsx:71-80 | searching a list gives a node with the id, and nothing exactly when no node at any depth has it |
| Lookup.FindBlockById | App.tsx:71-80 | the loop with early return computes Find; it changes nothing |
| Lookup.FindIsFirstInPreorder | App.tsx:71-80 | the block found is the first node in pre-order depth-first order with the id |
| Lookup.SelectedBlock | App.tsx:82-84 | the inspector's block has the selected id; there is none when nothing or the empty id is selected, or when no node has the id |
| Engine.Merge | App.tsx:164 | the spread merge: each of the fifteen attributes is the patch's value when the patch sets it, else the block's |
| Engine.MergeLaws | App.tsx:164 | the spread merge `{...a, ...p}`: the empty patch changes nothing, a patch applied twice acts once, two patches compose |
| Engine.DefaultAttributes | App.tsx:104-113 | each kind's defaults: content always; language javascript only for code; level 2 only for headings; height 40 only for spacers; 2 columns, gap 24, equal layout and start alignment only for Columns; no background, text colour or radius for any kind |
| Engine.NewBlock | App.tsx:101-115 | a new block has the kind's defaults and its single id; it has an (empty) inner list iff it is Columns |
| Engine.UpdateBlocks | App.tsx:161-171 | the update keeps the length and every id; an absent id or the empty patch gives the same tree |
| Engine.UpdateOne | App.tsx:162-169 | one block's update keeps its id and its ids; an absent id or the empty patch leaves it as it was |
| Engine.UpdateFind | App.tsx:161-171 | after the update, the block with the id has the merged attributes and its old children; every other node keeps its kind and attributes, and a node whose subtree lacks the id comes back unchanged |
| Engine.UpdateAtRoot | App.tsx:161-171 | when only one root block contains the id, the update changes that root block alone |
| Engine.RemoveBlocks | App.tsx:173-181 | after removal no node carries the id; an absent id leaves the tree as it was |
| Engine.Prune | App.tsx:174-179 | a kept block keeps its id, kind and attributes, and loses the id below it |
| Engine.RemoveConcat | App.tsx:174 | removal distributes over joined lists, so the others keep their order |
| Engine.RemoveBlockRecursive | App.tsx:173-181 | the filter loop with the recursive pass over children computes RemoveBlocks |
| Engine.RemoveAtRoot | App.tsx:173-181 | with the id only below one root block, removal replaces that root block with its pruned self |
| Engine.RemoveShrinks | App.tsx:173-181 | removal adds no id: the result's ids are a sub-multiset of the input's |
| Engine.RemoveKeepsUnique | App.tsx:173-181 | removal keeps the ids of a tree unique |
| Engine.RemoveSubtree | App.tsx:173-181 | in a tree with unique ids, removal takes away exactly the ids of the found block's subtree |
| Engine.RemoveAppended | App.tsx:116 | removing a block just appended gives back the list it was appended to |
| Engine.CreateCopy | App.tsx:121-125 | the copy takes the given ids, in pre-order, and has the original's kind, attributes and shape |
| Engine.CopyAll | App.tsx:124 | copying a child list gives the given ids and the same templates |
| Engine.InsertedAfter | App.tsx:133-141 | insertion into a tree without the id changes nothing |
| Engine.InsertBelow | App.tsx:140 | recursing into each block in place keeps the list's length and its blocks' identities |
| Engine.InsertInto | App.tsx:140 | a block keeps its id, kind and attributes; one without the id is unchanged |
| Engine.InsertAfter | App.tsx:133-141 | the find-and-splice procedure computes InsertedAfter |
| Engine.InsertedAdjacent | App.tsx:134-138 | with the id in the tree, the copy stands right after a block with the id, in the list that holds it |
| Engine.InsertedIds | App.tsx:133-141 | with the id once in the tree, the copy's ids are added once to the tree's |
| Engine.RemoveInserted | App.tsx:133-141 | removing the inserted copy gives back the tree it was inserted into |
| Engine.RemoveBetween | App.tsx:133-141 | removing a block placed between two lists without its id gives back the two lists joined |
| Engine.FindConcat | App.tsx:71-80 | a search of a joined list answers from the first part when the first part holds the id, else from the second |
| Engine.FindAfterInsert | App.tsx:133-141 | with unique ids, looking up the duplicated id after the insertion finds exactly what it found before |
| Engine.FindAfterInsertBelow | App.tsx:133-141 | the same for the descent into a list that does not hold the id at its root |
| Engine.FindInAfterInsert | App.tsx:133-141 | the same for one block and its children |
| Engine.Instantiate | App.tsx:148-155 | a template's instance has the given ids, in pre-order, and is an instance of that template |
| Engine.InstantiateAll | App.tsx:156 | one block per template, in order, with the given ids |
| Engine.BlocksFromIdsAndPatterns | App.tsx:148-156 | two block lists with the same ids and templates are equal, so instantiation is determined by them |
| Engine.CopyIsInstance | App.tsx:121-125 | a deep copy is the instance of the original's template with new ids |
| Engine.ReplaceInner | App.tsx:192-196 | only root blocks with the parent id get the new child list; every other root block, and every nested container, stays as it was |
| Engine.ReplaceInnerAt | App.tsx:192-196 | with unique ids, only the root block at the index changes, and the tree's ids change by the old and new children's |
| Shape.WellFormedEach | types.ts:34-39 | a list obeys the child-list rule exactly when each of its blocks does |
| Shape.PatternsWellFormedEach | types.ts:46-48 | the same for a list of templates |
| Shape.WellFormedConcat | types.ts:34-39 | a joined list obeys the rule exactly when both parts do |
| Shape.ShapeOfTemplate | types.ts:46-48 | a block obeys the rule exactly when its template does |
| Shape.ShapeOfTemplates | types.ts:46-48 | a block list obeys the rule exactly when its templates do |
| Shape.CopyKeepsShape | App.tsx:121-125 | a deep copy of a well-formed block is well-formed |
| Shape.InstancesKeepShape | App.tsx:148-156 | the instances of well-formed templates are well-formed |
| Shape.FoundKeepsShape | App.tsx:71-80 | a block found in a well-formed tree is well-formed |
| Shape.FoundInKeepsShape | App.tsx:71-80 | the same, searching one block |
| Shape.DragKeepsShape | App.tsx:86-98 | a drop keeps the rule |
| Shape.UpdateKeepsShape | App.tsx:161-171 | the attribute update keeps the rule |
| Shape.UpdateOneKeepsShape | App.tsx:162-169 | the same for one block |
| Shape.RemoveKeepsShape | App.tsx:173-181 | removal at any depth keeps the rule |
| Shape.PruneKeepsShape | App.tsx:174-179 | a kept block, pruned, keeps the rule |
| Shape.InsertedKeepsShape | App.tsx:133-141 | inserting a well-formed copy keeps the rule |
| Shape.InsertBelowKeepsShape | App.tsx:140 | the recursion into each block keeps the rule |
| Shape.InsertIntoKeepsShape | App.tsx:140 | the same for one block |
| Shape.ReplaceInnerKeepsShape | App.tsx:192-196 | giving a well-formed child list to roots that are all Columns keeps the rule |
| Shape.OnlyRootWithId | App.tsx:192-196 | with unique ids, the root at an index is the only root with its id |
| Shape.RootWellFormed | types.ts:34-39 | each root of a well-formed list is well-formed |
| Shape.ChildListKeepsShape | App.tsx:192-196 | with unique ids, giving a root Columns block a well-formed child list keeps the rule |
| Shape.InnerUpdateKeepsShape | components/SortableBlock.tsx:247-250 | a container with a child list is Columns, and its update callback gives a well-formed list |
| Shape.InnerRemoveKeepsShape | components/SortableBlock.tsx:251-254 | the same for the remove callback |
| Shape.InnerDuplicateKeepsShape | components/SortableBlock.tsx:255-260 | the same for the corrected duplicate callback |
| Shape.AddInnerKeepsShape | components/SortableBlock.tsx:123-133 | the add callback gives a well-formed list |
| Text.IntRoundTrip | components/SortableBlock.tsx:106-107 | the decimal rendering of an integer reads back to it |
| Text.IntToStringInjective | components/SortableBlock.tsx:220 | different integers render differently |
| Text.Split | components/SortableBlock.tsx:187 | `split` gives one piece more than there are separators, none containing it |
| Text.SplitJoin | components/SortableBlock.tsx:187 | joining the pieces with the separator gives the string back |
| Fresh.FreshIds | App.tsx:102 | the supplier gives the number of ids asked for, pairwise distinct, none already in the tree, each with the prefix |
| Ordering.ArrayMove | App.tsx:93 | `arrayMove` keeps length and elements; the moved element lands at `to`, and the others keep their relative order |
| Ordering.ArrayMoveShift | App.tsx:93 | the elements between the two indices shift by one towards `from`; the others stay |
| Ordering.ArrayMoveInverse | App.tsx:93 | moving back by index undoes a move |
| Ordering.DragEnd | App.tsx:86-98 | nothing changes without a target, on a drop onto itself, or when an id is not a root's; otherwise a permutation with the dragged block at the target's index and the rest in order |
| Ordering.DragEndIds | App.tsx:86-98 | a drop keeps the tree's ids as a multiset |
| Ordering.DragBackDoesNotRestore | App.tsx:86-98 | dropping a onto c and then c onto a does not restore [a, b, c] |
| SortableBlock.PxValue | components/SortableBlock.tsx:106-107 | a pixel string exactly for a set, non-zero number, ending in "px" |
| SortableBlock.PxValueRoundTrip | components/SortableBlock.tsx:106-107 | the number in front of "px" reads back as the value |
| SortableBlock.StyleOf | components/SortableBlock.tsx:103-108 | colours pass through; padding and radius exist exactly when truthy, and then are the decimal number followed by `px` |
| SortableBlock.CodeRows | components/SortableBlock.tsx:187 | the row count is the number of lines, and at least 3; it is 3 without content |
| SortableBlock.ColumnCount | components/SortableBlock.tsx:216 | `columns \|\| 2`: 2 when absent or 0, else the value |
| SortableBlock.GridTemplate | components/SortableBlock.tsx:216-224 | the four ratio layouts give their fixed templates; an equal or absent layout gives `repeat(n, 1fr)` for the column count |
| SortableBlock.EqualTemplatesDiffer | components/SortableBlock.tsx:220 | equal templates for different column counts differ |
| SortableBlock.AlignItems | components/SortableBlock.tsx:218-226 | start (also the default), center and end map to flex-start, center and flex-end, both ways |
| SortableBlock.Children | components/SortableBlock.tsx:131 | `innerBlocks \|\| []` |
| SortableBlock.MergeChildren | components/SortableBlock.tsx:247-250 | the `map`: same length and ids, each direct child with the id gets the merged attributes and every other child is kept as it is |
| SortableBlock.InnerUpdate | components/SortableBlock.tsx:247-250 | there is no list without children; otherwise the same length, with the patch merged only into direct children with the id |
| SortableBlock.MergeChildrenIsUpdate | components/SortableBlock.tsx:248 | when no child holds the id below its own root, the inner update is the tree-wide update |
| SortableBlock.InnerRemove | components/SortableBlock.tsx:251-254 | there is no list without children; otherwise no child with the id is left, every other child is kept and nothing new appears, and the list is DropChildren of the children |
| SortableBlock.DropChildren | components/SortableBlock.tsx:251-254 | the `filter`: no child of the result has the id |
| SortableBlock.DropChildrenMembers | components/SortableBlock.tsx:252 | the filter keeps exactly the children without the id |
| SortableBlock.DropChildrenShrinks | components/SortableBlock.tsx:252 | the filter adds no id: the result's ids are a sub-multiset of the children's |
| SortableBlock.DropChildrenStep | components/SortableBlock.tsx:252 | one step of the filter: the first child, when its id differs, followed by the filtered rest |
| SortableBlock.DropChildrenConcat | components/SortableBlock.tsx:252 | the filter of a joined list is the join of the filtered parts, so the kept children keep their order |
| SortableBlock.DropChildrenOne | components/SortableBlock.tsx:252 | one child is kept exactly when its id differs; with DropChildrenConcat this fixes the result, order and multiplicity included |
| SortableBlock.DropChildrenIsRemove | components/SortableBlock.tsx:252 | when no other child's subtree holds the id, the inner removal is the tree-wide removal |
| SortableBlock.InnerDuplicateShallow | components/SortableBlock.tsx:255-260 | as written: nothing without a matching direct child; otherwise a copy of it with one new id is appended at the end |
| SortableBlock.ShallowDuplicateRepeatsIds | components/SortableBlock.tsx:255-260 | copying a child that has children repeats its descendants' ids |
| SortableBlock.InnerDuplicate | components/SortableBlock.tsx:255-260 | corrected: the appended copy has the original's template and fresh, distinct ids at every node |
| SortableBlock.DuplicateOfLeafIsShallow | components/SortableBlock.tsx:255-260 | for a childless child the corrected and the written duplicate agree |
| SortableBlock.InnerDuplicateIds | components/SortableBlock.tsx:259 | the new child list's ids are the old ones followed by the copy's |
| SortableBlock.NewInnerParagraph | components/SortableBlock.tsx:125-129 | the new inner block is a childless paragraph with the default inner content |
| SortableBlock.AddInnerBlock | components/SortableBlock.tsx:123-133 | the children followed by one new paragraph |
| SortableBlock.CanAddInner | components/SortableBlock.tsx:265 | the add button shows exactly while there are fewer than 12 children |
| SortableBlock.AddInnerCap | components/SortableBlock.tsx:265 | an add through the button leaves at most 12 children |
| SortableBlock.DuplicateIgnoresCap | components/SortableBlock.tsx:255-265 | the duplicate callback is not capped: it takes 12 children to 13 |
| SortableBlock.InnerUpdateAgrees | App.tsx:272 | for a direct child of a root container, the container's update callback gives the tree-wide `updateBlock` result |
| SortableBlock.InnerRemoveAgrees | App.tsx:272 | for a direct child of a root container, the container's remove callback gives the tree-wide removal |
| SortableBlock.InnerUpdateMissesGrandchildren | components/SortableBlock.tsx:247-250 | the container's update callback does not reach below its direct children |
| Editing.InitialBlocks | App.tsx:31-59 | the opening document is a heading followed by a 70/30 Columns block with two children |
| Editing.InitialIds | App.tsx:31-59 | the opening document's ids in pre-order are initial-1, initial-2, inner-1, inner-2 |
| Editing.InitialIdsUnique | App.tsx:31-59 | those four ids are distinct |
| Editing.InitialWellFormed | App.tsx:31-59 | only the opening document's Columns block has children |
| Editing.InitialBlocksValid | App.tsx:31-59 | the opening document satisfies Valid: unique ids, and children only under Columns |
| Editing.Editor.constructor | App.tsx:31-61 | the editor opens on the sample document with nothing selected |
| Editing.Editor.ExportSchema | App.tsx:198-199 | the exported state is version 1.2.0 with the current root list |
| Editing.Editor.Select | App.tsx:255-268 | a click sets or clears the selection and leaves the document alone |
| Editing.Editor.HandleDragEnd | App.tsx:86-98 | the root list becomes DragEnd's result; Valid is kept |
| Editing.Editor.AddBlock | App.tsx:100-118 | one new block with the kind's defaults and a new id is appended and selected; nothing else changes |
| Editing.Editor.DuplicateBlock | App.tsx:120-145 | nothing when no node has the id; otherwise a deep copy with fresh ids right after the original, and it is selected; Valid is kept |
| Editing.Editor.AddPattern | App.tsx:147-159 | one instance per template appended in order with fresh ids at every depth; the first is selected when there is one; ids stay unique, and Valid is kept when the templates obey the child-list rule |
| Editing.Editor.UpdateBlock | App.tsx:183-185 | the tree becomes UpdateBlocks' result; selection unchanged; Valid is kept |
| Editing.Editor.RemoveBlock | App.tsx:187-190 | the block and its subtree are gone; the selection is cleared exactly when it was the removed id; Valid is kept |
| Editing.Editor.UpdateInnerBlocks | App.tsx:192-196 | the tree becomes ReplaceInner's result; the child-list rule survives when the new list obeys it and every root with the parent id is a Columns block |
| Editing.Editor.InnerUpdateAt | components/SortableBlock.tsx:247-250 | a root container's update callback, and for a direct child it equals `updateBlock`; Valid is kept |
| Editing.Editor.InnerRemoveAt | components/SortableBlock.tsx:251-254 | a root container's remove callback; for a direct child it equals the tree-wide removal, and it does not touch the selection; Valid is kept |
| Editing.Editor.InnerDuplicateAt | components/SortableBlock.tsx:255-260 | the corrected duplicate callback; Valid is kept |
| Editing.Editor.AddInnerBlockAt | components/SortableBlock.tsx:123-133 | on a Columns root, whose render alone shows the button: a new paragraph with an id new to the tree after the container's children; one child more; at most 12 when the button was shown; Valid is kept |
| Scenarios.TemplatesWellFormed | components/Sidebar.tsx:47-81 | in both sidebar templates only the Columns template has children |
| Scenarios.FeatureGridSize | components/Sidebar.tsx:47-64 | Feature Grid makes two root blocks and four nodes |
| Scenarios.HeroImageSplitSize | components/Sidebar.tsx:65-80 | Hero Image Split makes one root block and three nodes |
| Scenarios.AddFeatureGrid | App.tsx:147-159 | on the opening document: four roots, the last two instances of the template, eight distinct ids, Valid, the heading selected |
| Scenarios.SpacerHeight | App.tsx:100-118 | a new spacer set to height 100 exports with height 100 |
| Scenarios.DuplicateInnerParagraph | components/SortableBlock.tsx:255-260 | duplicating the opening paragraph gives three children, the last a copy with an id new to the document; Valid |
| Scenarios.DragColumnsUp | App.tsx:86-98 | the editor's drop handler, dropping the Columns block on the heading, leaves the two roots swapped |
| Scenarios.DragSwapsRoots | App.tsx:86-98 | dropping the Columns block on the heading swaps the two roots |
| Scenarios.RemoveSelectedColumns | App.tsx:187-190 | clicking the Columns block and deleting it leaves only the heading, nothing selected, and Valid |
| Scenarios.RemoveColumnsBesideSelection | App.tsx:187-190 | with the heading selected, deleting the Columns block leaves only the heading, still selected and shown by the inspector |
| Scenarios.RemoveColumnsRoot | App.tsx:173-181 | removing initial-2 from the opening document leaves the heading alone, which the inspector shows when initial-1 is selected |

## Left out

- Rendering is not part of this model: JSX, CSS classes, hover and toolbar state, and the sidebar and inspector forms. The rich-text (Quill) wrapper is an external DOM widget and is not modelled either.
- The drag-and-drop sensors and `useSortable` are not modelled. Only the ids a drop reports, and `arrayMove` with its standard remove-then-insert meaning, are.
- `handleAiGenerate` and the generation service are not modelled, because they are an asynchronous network call.
- The download part of `exportSchema` is browser I/O (Blob, URL, an anchor click). Only the exported value is modelled.
- Fresh.FreshIds: a deterministic supplier that never repeats stands in for the clock-and-random ids. The real ids can in principle collide, for example two `inner-copy-${Date.now()}` ids minted in the same millisecond. The model assumes they never do.
- Numbers are modelled as unbounded integers. JavaScript's floating point, NaN and fractional values are not modelled.
- A patch key explicitly set to `undefined`, which would clear a value under the spread, is not modelled. An absent key is `None`, and no caller passes an undefined key.
- Engine.RemoveBlockRecursive: the source assigns `block.innerBlocks` in place (App.tsx:177), so the old state object is mutated as well. The model returns new values and does not capture that aliasing.
- Editing.Editor.DuplicateBlock: the source looks the block up in the `blocks` of the last render, but inserts into the state pending at the time. The model uses one state for both.
- Editing.Editor.InnerUpdateAt, Editing.Editor.InnerRemoveAt, Editing.Editor.InnerDuplicateAt, Editing.Editor.AddInnerBlockAt: the container callbacks build the new child list from the `block.innerBlocks` of the last render (components/SortableBlock.tsx:123-133, 247-260), and `updateInnerBlocks` writes that list over the state pending at the time. The model reads and writes one current state.
- Nested Columns containers get no `onUpdateInner` from their parent container. Their callbacks and their add button do nothing, so only root containers' callbacks are modelled (`InnerUpdateAt`, `InnerRemoveAt`, `InnerDuplicateAt`, `AddInnerBlockAt` take a root index). A nested block's `onSelect` is its container's, which selects the container; `Select` covers that.
- The spacer's `${height}px` string and the container's `${gap}px` string are not modelled. They are plain template literals, and padding and radius already show the rendering.
- Editing.Editor.AddPattern: the child-list half of `Valid()` is promised only for templates that obey the rule themselves. A template's type allows children under any kind, and the source checks nothing; both sidebar templates obey it (`Scenarios.TemplatesWellFormed`).
- Editing.Editor.UpdateInnerBlocks: promises neither half of `Valid()` on its own, since the source sets whatever list a caller passes; its four callers each keep `Valid()`.
- Editing.Editor.InnerDuplicateAt: models the corrected deep duplicate (see Findings), not the shallow copy as written.

## Findings

| source | as written | input that shows it | evidently intended | confidence | as-written member | corrected member |
|---|---|---|---|---|---|---|
| components/SortableBlock.tsx:255-260 | the container's duplicate callback copies the child shallowly (`{...bToCopy, id: …}`), so a copied child keeps its own children, with their ids | a root container whose child C has a child G; duplicating C gives two nodes with G's id. The types allow such a C, but the shipped canvas cannot build one: it offers no way to put a Columns block inside a container, and only the sidebar templates create nested blocks, all childless | a deep copy with fresh ids at every node, as the root-level `duplicateBlock` makes (App.tsx:121-125) | not executed | SortableBlock.ShallowDuplicateRepeatsIds | SortableBlock.InnerDuplicate |
