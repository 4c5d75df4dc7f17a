# B+tree page engine of the C table store

This Dafny project models the page engine of the small SQLite-style database in
`c-impl/btree.c`. The engine stores rows in a B+tree whose nodes are
fixed-size pages. A leaf page holds a header and an array of (key, row) cells,
sorted by key. It also holds a pointer to the next leaf. An internal page holds
a header, an array of (child, key) separator cells and a right-child pointer.
The model covers:

- the page layout;
- the binary search in a leaf and the descent through internal nodes;
- insertion into a leaf;
- the split of a full leaf into two;
- the creation of a new root above a split root leaf.

The model works at the byte level.

- A page is an `array<byte>` of `PAGE_SIZE` bytes. Every header field and cell is
  read and written at the source's offsets. `Layout.Overwrite` is the single
  notion of a write.
- The pager is a class (`PagerModel.Pager`) holding one buffer per page number.
  `num_pages` is the length of that sequence.
- Algorithms that write in place are methods with loops over these buffers:
  - the shift loop of `leaf_node_insert`;
  - the descending redistribution loop of `leaf_node_split_and_insert`;
  - the `memcpy` and field writes of `create_new_root`.
- Each of these methods is proved against a function or predicate on the page
  bytes (`ShiftedUp`, `LeafInserted`, `SplitLeaves`, `NewRoot`). Lemmas then
  state what the source promises about those predicates:
  - inserting at the search position keeps the leaf ordered and searchable;
  - after a root split, the three pages form an ordered tree of height one whose
    search finds every cell.
- The two binary searches are methods with loop invariants. They are proved to
  compute `CountLess` of the keys, which is the search position, and
  `TreeFind` is the reference search over a tree of pages.

Modules:

- `Layout` (layout.dfy): constants, the u32 codec, field accessors, and lemmas about offsets.
- `Cells` (cells.dfy): cell sequences, `CountLess`, `InsertAt`, ordering lemmas.
- `Node` (node.dfy): in-place writes to a page buffer, and node initialization.
- `PagerModel` (pager.dfy): the page store.
- `BTree` (btree.dfy): search, and insertion into a leaf.
- `LeafSplit` (split.dfy): the redistribution of a full leaf over two pages.
- `TreeInsert` (insert.dfy): `leaf_node_insert`, `leaf_node_split_and_insert`,
  `create_new_root`, and the lemmas about the tree after a root split.

## Model

| member | source | states |
|---|---|---|
| Layout.SplitCountsBalanced | c-impl/btree.c:79-81 | the two split counts add up to MAX + 1, they are equal or the left one is larger by one, and it is larger exactly when MAX + 1 is odd |
| Layout.LeafLayoutFacts | c-impl/btree.c:64-81 | the derived constants give cells of 297 bytes and 13 cells per leaf, split 7 and 7; the 13 cells fit in the page after the leaf header and a 14th would not |
| Layout.SplitDestinationInRange | c-impl/btree.c:285-294 | during the split, the index `i % LEFT` of logical cell i lies within the count of the page that receives it |
| Layout.DecodeEncodeU32 | c-impl/btree.c:124-131 | reading back a written 32-bit field gives the value written |
| Layout.EncodeDecodeU32 | c-impl/btree.c:124-131 | writing back a 32-bit field that was read leaves its bytes unchanged |
| Layout.ReadWrittenU32 | c-impl/btree.c:124-131 | after a 4-byte field write the field reads as the value |
| Layout.ReadU32Frame | c-impl/btree.c:124-131 | a 32-bit field whose bytes are unchanged reads the same |
| Layout.NodeTypeOf | c-impl/btree.c:424-427 | get_node_type: the node type is the single byte at NODE_TYPE_OFFSET |
| Layout.IsNodeRoot | c-impl/btree.c:256-259 | is_node_root: when the flag byte is 0 or 1, as set_node_root writes it, the byte is 1 exactly when the result is true |
| Layout.LeafNumCells | c-impl/btree.c:128-131 | leaf_node_num_cells: the cell count is an unsigned 32-bit value |
| Layout.LeafNextLeaf | c-impl/btree.c:124-126 | leaf_node_next_leaf: the four bytes of the next-leaf field are the little-endian encoding of the page number read |
| Layout.LeafKey | c-impl/btree.c:138-141 | leaf_node_key: the first four bytes of the cell are the little-endian encoding of the key read, an unsigned 32-bit value |
| Layout.LeafValue | c-impl/btree.c:143-146 | leaf_node_value: the row of a cell is ROW_SIZE bytes |
| Layout.InternalNumKeys | c-impl/btree.c:165-168 | internal_node_num_keys: the four bytes of the key-count field are the little-endian encoding of the count read |
| Layout.InternalRightChild | c-impl/btree.c:170-173 | internal_node_right_child: the four bytes of the right-child field are the little-endian encoding of the page number read |
| Layout.InternalCellOffset | c-impl/btree.c:176-178 | internal_node_cell: a cell starts after the internal header, and a cell within the page's capacity ends inside the page |
| Layout.InternalCellChild | c-impl/btree.c:191 | the child read from a cell by internal_node_child: the cell's first four bytes are the little-endian encoding of the page number read, an unsigned 32-bit value |
| Layout.InternalKey | c-impl/btree.c:195-198 | internal_node_key: the four bytes after the cell's child field are the little-endian encoding of the key read, an unsigned 32-bit value |
| Layout.LeafCellOffsets | c-impl/btree.c:134-136 | leaf_node_cell, modelled by `Layout.LeafCellOffset`: leaf cells are consecutive, do not overlap, and cell MAX - 1 (the last one a leaf can hold) ends inside the page |
| Layout.ReadWrittenCell | c-impl/btree.c:139-146 | writing a cell's key and row at a leaf cell's offset makes that cell read back as the cell written |
| Layout.OverwriteLeafCell | c-impl/btree.c:134-146 | writing one cell changes that cell and no other |
| Layout.LeafCellMoved | c-impl/btree.c:134-146 | a cell depends only on its own 297 bytes: a slot holding another slot's bytes reads as that slot's cell |
| Layout.CopyLeafCell | c-impl/btree.c:134-146 | copying a cell's 297 bytes to another slot makes that slot read as the source cell, and the other slots keep theirs |
| Layout.HeaderWriteKeepsCells | c-impl/btree.c:124-136 | a write inside the leaf header leaves every cell as it was |
| Layout.LeafCells | c-impl/btree.c:129-146 | the cells of a leaf are its first count cells, read at their offsets |
| Layout.InternalKeys | c-impl/btree.c:166-198 | the separator keys of an internal node are its first num_keys cell keys, read at their offsets |
| Layout.Children | c-impl/btree.c:170-193 | an internal node with K keys has K + 1 children: the K cell children, then the right child |
| Layout.InternalChildOffset | c-impl/btree.c:181-193 | internal_node_child picks a field exactly when child_num <= num_keys, and that field lies inside the page; otherwise it is the out-of-range error carrying child_num and num_keys |
| Layout.InternalChild | c-impl/btree.c:181-193 | reading through internal_node_child succeeds exactly when child_num <= num_keys and gives an unsigned 32-bit page number; otherwise it is the out-of-range error carrying child_num and num_keys |
| Layout.InternalChildIsChildrenEntry | c-impl/btree.c:181-193 | internal_node_child succeeds exactly for child_num <= num_keys; child_num == num_keys reads the right child, a smaller one reads that cell's child, and a larger one is the out-of-range error |
| Cells.CountLessIsLowerBound | c-impl/btree.c:374-386 | in an ascending run, CountLess is the first position whose key is at least the one searched |
| Cells.CountLessAtBoundary | c-impl/btree.c:374-386 | a position with only smaller keys before it and only keys at least as large from it on is CountLess |
| Cells.LeafSearchPosition | c-impl/btree.c:362-390 | in a strictly ascending leaf, the key is present exactly when it sits at CountLess; before CountLess every key is smaller, and when the key is absent every key from it on is larger |
| Cells.LeafSearchExamples | c-impl/btree.c:362-390 | keys 10, 20, 30 give 1, 1, 0 and 3 for searches of 20, 15, 5 and 35 |
| Cells.InsertAt | c-impl/btree.c:338-358 | inserting at i keeps the cells before i, puts the new cell at i and moves the cells from i on up by one |
| Cells.InsertAtPositionKeepsOrder | c-impl/btree.c:338-358 | inserting a missing key at its CountLess position keeps the keys strictly ascending |
| Cells.SearchFindsCell | c-impl/btree.c:362-390 | in a strictly ascending run, searching for a cell's key finds that cell |
| Cells.InsertThenFind | c-impl/btree.c:338-358 | after such an insert, searching for the new key or any old key finds its cell |
| Cells.SplitSeparatesKeys | c-impl/btree.c:283-310 | cutting a strictly ascending run gives two strictly ascending halves, with every left key below every right key |
| Node.WriteBytes | c-impl/btree.c:299 | the bytes at [off, off + n) become the given bytes and all other bytes stay; it is the plain byte write behind serialize_row here and at line 358 |
| Node.MemCopy | c-impl/btree.c:238 | memcpy, here and at lines 302, 304 and 348: the destination range holds the source's bytes as they were before the copy, and nothing else changes |
| Node.SetU32 | c-impl/btree.c:124-131 | a 32-bit field write changes those 4 bytes, and the field then reads as the value |
| Node.SetNodeType | c-impl/btree.c:431-433 | set_node_type writes the tag byte and nothing else |
| Node.SetNodeRoot | c-impl/btree.c:262-265 | set_node_root writes the flag byte as 1 or 0 and nothing else |
| Node.InitializeLeafNode | c-impl/btree.c:149-158 | the page becomes a leaf that is not the root, with no cells and next leaf 0; the parent pointer and the cell bytes are kept |
| Node.InitializeInternalNode | c-impl/btree.c:213-221 | the page becomes an internal node that is not the root, with no keys; the parent pointer, the right child and the cell bytes are kept |
| PagerModel.Pager.GetUnusedPageNum | c-impl/btree.c:161-163 | get_unused_page_num: the number is no existing page number and leaves no gap, so it is num_pages |
| PagerModel.Pager.AllocatePage | c-impl/btree.c:161-163 | the new page number is num_pages before the call; one zero page is appended; the earlier pages are the same buffers |
| BTree.LeafNodeFind | c-impl/btree.c:362-390 | the cursor stays on the given page with a cell number in [0, num_cells]; on a strictly ascending leaf that number is CountLess of the keys (see Cells.LeafSearchPosition); nothing is written |
| BTree.InternalNodeSearch | c-impl/btree.c:398-409 | the index is in [0, num_keys], and on ascending separators it is the first index whose key is at least the one searched, or num_keys if there is none |
| BTree.TreeFind | c-impl/btree.c:393-421 | the reference search over a tree of pages ends on a leaf page with a cell number within its count |
| BTree.DescendOneLevel | c-impl/btree.c:411-420 | the child chosen by the binary search exists, is one level lower and ordered, and the search from the parent equals the search from the child |
| BTree.InternalNodeFind | c-impl/btree.c:393-421 | internal_node_find ends on a leaf with a cell number within its count, and on an ordered tree its cursor is TreeFind |
| BTree.GetNodeMaxKey | c-impl/btree.c:202-210 | get_node_max_key on a leaf with cells: the key of its last cell, an unsigned 32-bit value |
| BTree.MaxKeyIsLargest | c-impl/btree.c:200-210 | get_node_max_key on a leaf with cells gives one of its keys, and on a strictly ascending leaf no key is larger |
| BTree.ShiftedUpFrame | c-impl/btree.c:345-350 | shifting slots i..n-1 up touches only the bytes of slots i+1..n |
| BTree.ShiftStep | c-impl/btree.c:347-349 | one pass of the shift loop, which copies slot i - 1 into slot i, moves the shifted range down by one slot |
| BTree.ShiftedUpCells | c-impl/btree.c:345-350 | after the shift, cells 0..i are in place and slots i+1..n hold the cells from one slot below |
| BTree.ShiftedUpKeeps | c-impl/btree.c:345-350 | after the shift, each cell at or below i is in place |
| BTree.ShiftedUpMoves | c-impl/btree.c:345-350 | after the shift, each slot e in i+1..n holds former cell e - 1 |
| BTree.InsertedCellAt | c-impl/btree.c:338-358 | after those writes, each cell e up to the new count is cell e of the old cells with the new cell inserted at cell_no |
| BTree.InsertedCells | c-impl/btree.c:338-358 | after the shift, the count increment and the cell write, the leaf has one more cell, and its cells are the old ones with the new cell inserted at cell_no |
| BTree.InsertedFrame | c-impl/btree.c:338-358 | those writes leave every byte outside the count field and the cell area as it was |
| BTree.InsertWrites | c-impl/btree.c:338-358 | those writes give a leaf with the new cell inserted at cell_no (LeafInserted) |
| BTree.InsertWritesCompose | c-impl/btree.c:352-358 | the key write followed by the row write is the write of the whole cell |
| BTree.ShiftCellsUp | c-impl/btree.c:345-350 | the backward shift loop leaves the page as ShiftedUp: slots cell_no..num_cells-1 copied one slot up |
| BTree.LeafNodeInsertInPlace | c-impl/btree.c:338-358 | on a non-full leaf with cell_no in [0, num_cells]: the count grows by exactly one; cells before cell_no are unchanged; cell cell_no holds the new key and row; former cells from cell_no on are one slot up; no other byte changes |
| BTree.LeafInsertKeepsSearch | c-impl/btree.c:325-390 | inserting a missing key at the position leaf_node_find gives for it keeps the keys strictly ascending, and a search of the new leaf finds the new cell and every old one |
| LeafSplit.SplitAll | c-impl/btree.c:283-310 | the logical cells of a split are the MAX cells of the full leaf with the new cell inserted at cell_no: MAX + 1 cells |
| LeafSplit.WriteSlot | c-impl/btree.c:296-306 | writing the bytes of logical cell i into a slot makes that slot read as logical cell i and leaves the other slots |
| LeafSplit.SlotWriteFrame | c-impl/btree.c:296-306 | writing a slot below `bound` keeps a page that agrees with the starting page outside the first `bound` slots in agreement with it, so the split loop changes only the slots of each half |
| LeafSplit.SplitStepRight | c-impl/btree.c:283-306 | a pass with i >= LEFT writes logical cell i into new-page slot i - LEFT and keeps the loop's progress invariant |
| LeafSplit.SplitStepLeft | c-impl/btree.c:283-306 | a pass with i < LEFT writes logical cell i into old-page slot i and keeps the loop's progress invariant |
| LeafSplit.LeafSplitCells | c-impl/btree.c:283-306 | the descending loop leaves old-page slots 0..LEFT-1 holding logical cells 0..LEFT-1 and new-page slots 0..RIGHT-1 holding logical cells LEFT..MAX; it also leaves the headers and tails of both pages as they were, even though the old page is read while being rewritten |
| LeafSplit.SplitPass | c-impl/btree.c:284-306 | one pass chooses the destination page by `i >= LEFT` and the slot `i % LEFT`, and writes logical cell i there |
| LeafSplit.WriteLogicalCell | c-impl/btree.c:296-306 | the three branches (the new cell when i == cell_no, old slot i - 1 when i > cell_no, old slot i otherwise) write the bytes of logical cell i |
| LeafSplit.HeaderWriteKeepsLeafCells | c-impl/btree.c:277-278 | a header write that avoids the count field keeps the count and the cells |
| LeafSplit.SplitWritesMakeLeaves | c-impl/btree.c:272-313 | the chain writes, the loop and the two count writes together give SplitLeaves: both pages are leaves; the counts are LEFT and RIGHT; old cells followed by new cells are the logical cells; the old leaf points to the new page; the new leaf takes the old next leaf and is not the root |
| LeafSplit.SplitLeavesClearRoot | c-impl/btree.c:240-241 | clearing the root flag of the left half keeps SplitLeaves |
| LeafSplit.SplitOldPageKeepsCells | c-impl/btree.c:277-278 | setting the old leaf's next pointer keeps it a leaf that fits the page, with the same count and the same cells |
| TreeInsert.CreateNewRoot | c-impl/btree.c:227-253 | the left child is a new page at num_pages that is a byte copy of the old root with is_root cleared; the root keeps its page number and parent pointer and becomes an internal root with one key (the left child's last key), child 0 the left page and right child the given page; earlier pages are the same buffers |
| TreeInsert.WriteNewRoot | c-impl/btree.c:243-253 | the root page becomes an internal root with num_keys 1, child 0 the left page, key 0 the left child's largest key and the given right child; bytes past the first cell are kept |
| TreeInsert.InitializeRootHeader | c-impl/btree.c:244-247 | the root page becomes an internal node flagged as root, with one key and the parent pointer kept |
| TreeInsert.LeafNodeSplitAndInsert | c-impl/btree.c:268-321 | the new leaf's page number is num_pages before the call, and the two halves satisfy SplitLeaves; a root leaf continues into create_new_root and ends Pass with NewRoot over the two halves; a non-root leaf ends with the SplitParentUnsupported error, its halves written |
| TreeInsert.SplitIntoNewLeaf | c-impl/btree.c:272-313 | the page writes of the split give SplitLeaves, and the old page keeps its root flag |
| TreeInsert.LeafNodeInsert | c-impl/btree.c:325-359 | a non-full leaf gets the new cell inserted at cell_no (LeafInserted), with no page added; a full leaf is split, with the outcomes and page contents of LeafNodeSplitAndInsert |
| TreeInsert.SplitHalvesOrdered | c-impl/btree.c:283-313 | when the logical cells ascend strictly, both halves do, and every left key is below every right key |
| TreeInsert.NewRootHeight | c-impl/btree.c:227-253 | a one-key internal root over two leaves is a tree of height one |
| TreeInsert.NewRootIsTree | c-impl/btree.c:227-253 | a one-key internal root over two ordered leaves is a tree of height one with its keys in order |
| TreeInsert.NewRootDescent | c-impl/btree.c:398-420 | from that root, a key at most the separator is searched in the left leaf, and a larger key in the right leaf |
| TreeInsert.NewRootFinds | c-impl/btree.c:393-421 | after a root split, searching for the key of any cell of the two leaves finds that cell |
| TreeInsert.RootSplitKeepsSearch | c-impl/btree.c:227-321 | this holds when a strictly ordered full root leaf takes a missing key at its search position and splits under a new root: the pages form an ordered tree of height one, and the search from the root finds the new cell and every old one |

## Left out

- Page I/O. `get_page`, the file, and the pager cache are not part of this model. A page number below `num_pages` is a buffer in `Pager.pages`. A new page number is a fresh buffer at the end.
  - `Layout.ZeroPage` is the model's stand-in for the memory the pager hands out for a new page. `btree.c` itself fills no page. The pager, which is not part of this model, zero-fills a new page; `Pager.AllocatePage` states that, and no other contract relies on it. The model states nothing about the stale bytes of the new leaf's cell area past its count.
  - `PagerModel.Pager.constructor` gives an empty store. The source opens the pager from a file, which is not part of this model.
- `PAGE_SIZE` and `ROW_SIZE` come from a header that is not part of this model. They are set to 4096 and 293, so MAX is 13 and the split is 7 and 7. The constants are kept as the source's derived expressions.
- The tag values `NODE_INTERNAL = 0` and `NODE_LEAF = 1` come from the `NodeType` enum of the same header, `btree.h`, which is not part of this model. They are taken as its declaration order.
- `serialize_row` and deserialization are foreign code. A row is an opaque sequence of `ROW_SIZE` bytes, written in place as the source writes the serialized row.
- Integers are stored little-endian. The source uses the machine's native order.
- The model does not dereference page numbers wider than 32 bits. Page counts are required to stay below 2^32.
- The `printf` and `exit(EXIT_FAILURE)` paths are not modelled as such. They become `Err(ChildIndexOutOfRange(..))` in `Layout.InternalChildOffset` and `Fail(SplitParentUnsupported)` in the insert outcome.
- The `malloc` of a `Cursor` is not modelled. A cursor is the value `(pageNo, cellNo)`.
- The `Table` pointer is not modelled. The root page number is passed as a parameter.
- Splitting an internal node, and updating a non-root parent after a leaf split, do not exist in the source. A non-root split ends as an error, with both halves written as the source leaves them before it exits.
- `get_node_max_key` for internal nodes is not modelled. It reads the right-child page number, not a key. Only the leaf case, the one `create_new_root` uses, is modelled.
- `src/repl.rs` is not part of this model. It is the interactive front end.
- `INTERNAL_NODE_CELL_CAPACITY` (510) is a bound of this model, not of the source. An internal node with more keys would read past its page, and such a node is not a valid internal page here.
- `PagerModel.Pager.Valid` states only that each page is its own 4096-byte buffer. Node well-formedness is stated per operation, and by `BTree.HeightBounded` for the pages reachable from a root.
- TreeInsert.LeafNodeInsert: requires `cell_no <= num_cells`, which the source's callers ensure by taking the cursor from `leaf_node_find`. The source does not check it.
- TreeInsert.LeafNodeInsert: requires the page to be a leaf. The source never checks the node type here.
- BTree.GetNodeMaxKey: requires a leaf with at least one cell. On an empty leaf the source computes `num_cells - 1` as a uint32 (btree.c:208), which wraps to 0xFFFFFFFF, and reads outside the page. The only caller, create_new_root, passes a left half holding LEFT cells.
- TreeInsert.LeafNodeSplitAndInsert: requires `count == MAX`. Its only caller, leaf_node_insert, calls it when `num_cells >= MAX` (btree.c:334), but a page whose count is above MAX does not fit its page.
- TreeInsert.LeafNodeSplitAndInsert: requires that a root leaf's page is the table's root page number. The source reads both from the same table.
- Layout.LeafNumCells: states only that the count is an unsigned 32-bit value. The little-endian round trip of the field is stated for every 32-bit field by `Layout.ReadWrittenU32` and `Layout.EncodeDecodeU32`; stating it on this function as well makes the proofs that read the count too costly for the verifier.
- BTree.InternalNodeFind: requires `HeightBounded` and an internal node. The source's `internal_node_find` (c-impl/btree.c:393-421) has no such bound. On pages whose child pointers form a cycle it recurses forever. On a child whose tag is neither `NODE_LEAF` nor `NODE_INTERNAL` it falls off the end of the `switch` and returns no value, which is undefined in C. `HeightBounded` is what makes the model's recursion terminate, and it asks every reachable page to carry one of the two tags.
- Overlapping `memcpy`. For `i < cell_no` in the left half, the source's split loop copies old slot i onto itself (c-impl/btree.c:304), because the destination page is the old page and `i % LEFT == i`. A `memcpy` between overlapping ranges, here identical ones, is undefined in C. `Node.MemCopy` reads all source bytes before writing, like `memmove`, so the model makes this copy a no-op.
- BTree.LeafNodeFind and BTree.InternalNodeFind: the exact-match early return of the leaf search is stated through `CountLess` only on a strictly ascending leaf. On an unordered page, only the bounds of the cursor are stated.
- Several source functions are modelled each as one method plus helper methods for parts of its body:
  - `BTree.ShiftCellsUp` is the shift loop of `leaf_node_insert`.
  - `BTree.InternalNodeSearch` is the binary search of `internal_node_find`.
  - `LeafSplit.SplitPass` and `LeafSplit.WriteLogicalCell` are one pass of the split loop.
  - `TreeInsert.SplitIntoNewLeaf` is the page writes of the split.
  - `TreeInsert.WriteNewRoot` and `TreeInsert.InitializeRootHeader` are the second half of `create_new_root`.
