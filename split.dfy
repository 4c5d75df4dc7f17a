/**
 * The split of a full leaf: the MAX + 1 cells of the leaf with the new cell
 * inserted are spread over the old page (the left half) and a new page (the
 * right half), and the new page is spliced into the chain of leaves.
 */
module LeafSplit {
  import opened Layout
  import opened Cells
  import opened Node

  /** The MAX + 1 cells of a full leaf with c inserted at cellNo, in order. */
  ghost function SplitAll(o0: seq<byte>, cellNo: nat, c: Cell): (all: seq<Cell>)
    requires LeafFits(o0) && LeafNumCells(o0) == LEAF_NODE_MAX_CELLS && cellNo <= LEAF_NODE_MAX_CELLS
    ensures |all| == LEAF_NODE_MAX_CELLS + 1
  {
    InsertAt(LeafCells(o0), cellNo, c)
  }

  /**
   * The bytes the split loop writes for logical cell i: the new cell at cellNo,
   * the old cell below it past cellNo, and the old cell in place before it.
   */
  ghost function SlotBytes(o: seq<byte>, cellNo: nat, c: Cell, i: nat): (b: seq<byte>)
    requires |o| == PAGE_SIZE && i <= LEAF_NODE_MAX_CELLS && cellNo <= LEAF_NODE_MAX_CELLS && WellSizedCell(c)
    ensures |b| == LEAF_NODE_CELL_SIZE
  {
    LeafCellOffsets(LEAF_NODE_MAX_CELLS, LEAF_NODE_MAX_CELLS);
    if i == cellNo then EncodeCell(c)
    else if i > cellNo then o[LeafCellOffset(i - 1)..LeafCellOffset(i - 1) + LEAF_NODE_CELL_SIZE]
    else o[LeafCellOffset(i)..LeafCellOffset(i) + LEAF_NODE_CELL_SIZE]
  }

  /** The old page after the pass for logical cell i: written only for the left half. */
  ghost function StepOld(o: seq<byte>, cellNo: nat, c: Cell, i: nat): (r: seq<byte>)
    requires |o| == PAGE_SIZE && i <= LEAF_NODE_MAX_CELLS && cellNo <= LEAF_NODE_MAX_CELLS && WellSizedCell(c)
    ensures |r| == PAGE_SIZE
  {
    if i >= LEAF_NODE_LEFT_SPLIT_COUNT then o
    else
      LeafCellOffsets(i, LEAF_NODE_MAX_CELLS);
      Overwrite(o, LeafCellOffset(i % LEAF_NODE_LEFT_SPLIT_COUNT), SlotBytes(o, cellNo, c, i))
  }

  /** The new page after the pass for logical cell i: written only for the right half. */
  ghost function StepNew(o: seq<byte>, n: seq<byte>, cellNo: nat, c: Cell, i: nat): (r: seq<byte>)
    requires |o| == PAGE_SIZE && |n| == PAGE_SIZE && WellSizedCell(c)
    requires i <= LEAF_NODE_MAX_CELLS && cellNo <= LEAF_NODE_MAX_CELLS
    ensures |r| == PAGE_SIZE
  {
    if i < LEAF_NODE_LEFT_SPLIT_COUNT then n
    else
      SplitDestinationInRange(i);
      LeafCellOffsets(i % LEAF_NODE_LEFT_SPLIT_COUNT, LEAF_NODE_MAX_CELLS);
      Overwrite(n, LeafCellOffset(i % LEAF_NODE_LEFT_SPLIT_COUNT), SlotBytes(o, cellNo, c, i))
  }

  /**
   * The state of the split loop before the pass for logical cell i: the logical
   * cells above i are in their place, in the old page for the left half and in
   * the new page for the right half; the old cells up to i are still unread and
   * untouched; no byte outside the cell slots of either half has changed.
   */
  ghost predicate SplitProgress(o0: seq<byte>, n0: seq<byte>, cellNo: nat, c: Cell, i: int,
                                o: seq<byte>, n: seq<byte>)
    requires LeafFits(o0) && LeafNumCells(o0) == LEAF_NODE_MAX_CELLS && cellNo <= LEAF_NODE_MAX_CELLS
    requires -1 <= i <= LEAF_NODE_MAX_CELLS
  {
    |o| == PAGE_SIZE && |n| == PAGE_SIZE && |n0| == PAGE_SIZE &&
    (forall e :: 0 <= e <= i && e < LEAF_NODE_MAX_CELLS ==> LeafCellAt(o, e) == LeafCellAt(o0, e)) &&
    (forall j :: i < j < LEAF_NODE_LEFT_SPLIT_COUNT ==> LeafCellAt(o, j) == SplitAll(o0, cellNo, c)[j]) &&
    (forall j :: 0 <= j < LEAF_NODE_RIGHT_SPLIT_COUNT && i < j + LEAF_NODE_LEFT_SPLIT_COUNT ==>
       LeafCellAt(n, j) == SplitAll(o0, cellNo, c)[j + LEAF_NODE_LEFT_SPLIT_COUNT]) &&
    (forall k :: 0 <= k < PAGE_SIZE && !(LEAF_NODE_HEADER_SIZE <= k < LeafCellOffset(LEAF_NODE_LEFT_SPLIT_COUNT)) ==>
       o[k] == o0[k]) &&
    (forall k :: 0 <= k < PAGE_SIZE && !(LEAF_NODE_HEADER_SIZE <= k < LeafCellOffset(LEAF_NODE_RIGHT_SPLIT_COUNT)) ==>
       n[k] == n0[k])
  }

  /**
   * Writing the bytes of logical cell i into slot `to` of a page puts that
   * logical cell there and leaves the other slots as they were.
   */
  lemma WriteSlot(o0: seq<byte>, cellNo: nat, c: Cell, i: nat, o: seq<byte>, t: seq<byte>, to: nat)
    requires LeafFits(o0) && LeafNumCells(o0) == LEAF_NODE_MAX_CELLS && cellNo <= LEAF_NODE_MAX_CELLS
    requires WellSizedCell(c) && i <= LEAF_NODE_MAX_CELLS && |o| == PAGE_SIZE
    requires forall e :: 0 <= e <= i && e < LEAF_NODE_MAX_CELLS ==> LeafCellAt(o, e) == LeafCellAt(o0, e)
    requires |t| == PAGE_SIZE && to < LEAF_NODE_MAX_CELLS
    ensures LeafCellOffset(to) + LEAF_NODE_CELL_SIZE <= PAGE_SIZE
    ensures LeafCellAt(Overwrite(t, LeafCellOffset(to), SlotBytes(o, cellNo, c, i)), to) == SplitAll(o0, cellNo, c)[i]
    ensures forall e :: 0 <= e < LEAF_NODE_MAX_CELLS && e != to ==>
              LeafCellAt(Overwrite(t, LeafCellOffset(to), SlotBytes(o, cellNo, c, i)), e) == LeafCellAt(t, e)
  {
    LeafCellOffsets(to, LEAF_NODE_MAX_CELLS);
    var all := SplitAll(o0, cellNo, c);
    var b := SlotBytes(o, cellNo, c, i);
    if i == cellNo {
      OverwriteLeafCell(t, to, c);
    } else {
      var from := if i > cellNo then i - 1 else i;
      LeafCellOffsets(from, LEAF_NODE_MAX_CELLS);
      assert b == o[LeafCellOffset(from)..LeafCellOffset(from) + LEAF_NODE_CELL_SIZE];
      CopyLeafCell(o, from, t, to);
      assert all[i] == LeafCellAt(o0, from);
    }
  }

  /**
   * A page that differs from s0 only inside the first `bound` cell slots still
   * does after one of those slots is written.
   */
  lemma SlotWriteFrame(s0: seq<byte>, s: seq<byte>, slot: nat, b: seq<byte>, bound: nat)
    requires |s0| == PAGE_SIZE && |s| == PAGE_SIZE && slot < bound <= LEAF_NODE_MAX_CELLS
    requires |b| == LEAF_NODE_CELL_SIZE
    requires forall k :: 0 <= k < PAGE_SIZE && !(LEAF_NODE_HEADER_SIZE <= k < LeafCellOffset(bound)) ==> s[k] == s0[k]
    ensures LeafCellOffset(slot) + |b| <= PAGE_SIZE
    ensures forall k :: 0 <= k < PAGE_SIZE && !(LEAF_NODE_HEADER_SIZE <= k < LeafCellOffset(bound)) ==>
              Overwrite(s, LeafCellOffset(slot), b)[k] == s0[k]
  {
    LeafCellOffsets(slot, bound);
    LeafCellOffsets(bound, bound);
  }

  /** The pass for a logical cell i of the right half writes slot i - LEFT of the new page. */
  lemma SplitStepRight(o0: seq<byte>, n0: seq<byte>, cellNo: nat, c: Cell, i: nat, o: seq<byte>, n: seq<byte>)
    requires LeafFits(o0) && LeafNumCells(o0) == LEAF_NODE_MAX_CELLS && cellNo <= LEAF_NODE_MAX_CELLS
    requires WellSizedCell(c) && LEAF_NODE_LEFT_SPLIT_COUNT <= i <= LEAF_NODE_MAX_CELLS
    requires SplitProgress(o0, n0, cellNo, c, i, o, n)
    ensures SplitProgress(o0, n0, cellNo, c, i - 1, o, StepNew(o, n, cellNo, c, i))
  {
    var n1 := StepNew(o, n, cellNo, c, i);
    var all := SplitAll(o0, cellNo, c);
    SplitDestinationInRange(i);
    var idx := i % LEAF_NODE_LEFT_SPLIT_COUNT;
    LeafCellOffsets(idx, LEAF_NODE_RIGHT_SPLIT_COUNT);
    LeafCellOffsets(idx, idx + 1);
    WriteSlot(o0, cellNo, c, i, o, n, idx);
    assert n1 == Overwrite(n, LeafCellOffset(idx), SlotBytes(o, cellNo, c, i));
    forall j | 0 <= j < LEAF_NODE_RIGHT_SPLIT_COUNT && i - 1 < j + LEAF_NODE_LEFT_SPLIT_COUNT
      ensures LeafCellAt(n1, j) == all[j + LEAF_NODE_LEFT_SPLIT_COUNT]
    {
      if j != idx {
        assert LeafCellAt(n1, j) == LeafCellAt(n, j);
      }
    }
    SlotWriteFrame(n0, n, idx, SlotBytes(o, cellNo, c, i), LEAF_NODE_RIGHT_SPLIT_COUNT);
  }

  /** The pass for a logical cell i of the left half writes slot i of the old page. */
  lemma SplitStepLeft(o0: seq<byte>, n0: seq<byte>, cellNo: nat, c: Cell, i: nat, o: seq<byte>, n: seq<byte>)
    requires LeafFits(o0) && LeafNumCells(o0) == LEAF_NODE_MAX_CELLS && cellNo <= LEAF_NODE_MAX_CELLS
    requires WellSizedCell(c) && i < LEAF_NODE_LEFT_SPLIT_COUNT
    requires SplitProgress(o0, n0, cellNo, c, i, o, n)
    ensures SplitProgress(o0, n0, cellNo, c, i - 1, StepOld(o, cellNo, c, i), n)
  {
    var o1 := StepOld(o, cellNo, c, i);
    var all := SplitAll(o0, cellNo, c);
    SplitDestinationInRange(i);
    LeafCellOffsets(i, LEAF_NODE_LEFT_SPLIT_COUNT);
    LeafCellOffsets(i, i + 1);
    WriteSlot(o0, cellNo, c, i, o, o, i);
    assert o1 == Overwrite(o, LeafCellOffset(i), SlotBytes(o, cellNo, c, i));
    forall e | 0 <= e <= i - 1 ensures LeafCellAt(o1, e) == LeafCellAt(o0, e) {
      assert LeafCellAt(o1, e) == LeafCellAt(o, e);
    }
    forall j | i - 1 < j < LEAF_NODE_LEFT_SPLIT_COUNT ensures LeafCellAt(o1, j) == all[j] {
      if j != i {
        assert LeafCellAt(o1, j) == LeafCellAt(o, j);
      }
    }
    SlotWriteFrame(o0, o, i, SlotBytes(o, cellNo, c, i), LEAF_NODE_LEFT_SPLIT_COUNT);
  }

  /**
   * The loop of leaf_node_split_and_insert: for the logical cells i = MAX down
   * to 0, the cell goes to slot i % LEFT of the new page when i >= LEFT and of
   * the old page otherwise; it is the new cell at cellNo, the old cell i - 1
   * above cellNo and the old cell i below it.  Afterwards the old page's first
   * LEFT slots hold the left half of the MAX + 1 cells, the new page's first
   * RIGHT slots the right half, and no other byte of either page has changed.
   */
  method LeafSplitCells(oldNode: array<byte>, newNode: array<byte>, cellNo: nat, key: nat, value: seq<byte>)
    requires oldNode != newNode && newNode.Length == PAGE_SIZE
    requires LeafFits(oldNode[..]) && LeafNumCells(oldNode[..]) == LEAF_NODE_MAX_CELLS
    requires cellNo <= LEAF_NODE_MAX_CELLS && WellSizedCell(Cell(key, value))
    modifies oldNode, newNode
    ensures forall j :: 0 <= j < LEAF_NODE_LEFT_SPLIT_COUNT ==>
              LeafCellAt(oldNode[..], j) == SplitAll(old(oldNode[..]), cellNo, Cell(key, value))[j]
    ensures forall j :: 0 <= j < LEAF_NODE_RIGHT_SPLIT_COUNT ==>
              LeafCellAt(newNode[..], j) == SplitAll(old(oldNode[..]), cellNo, Cell(key, value))[j + LEAF_NODE_LEFT_SPLIT_COUNT]
    ensures forall k :: 0 <= k < PAGE_SIZE && !(LEAF_NODE_HEADER_SIZE <= k < LeafCellOffset(LEAF_NODE_LEFT_SPLIT_COUNT)) ==>
              oldNode[k] == old(oldNode[k])
    ensures forall k :: 0 <= k < PAGE_SIZE && !(LEAF_NODE_HEADER_SIZE <= k < LeafCellOffset(LEAF_NODE_RIGHT_SPLIT_COUNT)) ==>
              newNode[k] == old(newNode[k])
  {
    ghost var o0, n0 := oldNode[..], newNode[..];
    ghost var c := Cell(key, value);
    var i: int := LEAF_NODE_MAX_CELLS;
    while i >= 0
      invariant -1 <= i <= LEAF_NODE_MAX_CELLS
      invariant SplitProgress(o0, n0, cellNo, c, i, oldNode[..], newNode[..])
    {
      ghost var o, n := oldNode[..], newNode[..];
      if i >= LEAF_NODE_LEFT_SPLIT_COUNT {
        SplitStepRight(o0, n0, cellNo, c, i, o, n);
      } else {
        SplitStepLeft(o0, n0, cellNo, c, i, o, n);
      }
      SplitPass(oldNode, newNode, cellNo, key, value, i);
      i := i - 1;
    }
  }

  /** One pass of the split loop, for logical cell i: its bytes go to its slot in its destination page. */
  method SplitPass(oldNode: array<byte>, newNode: array<byte>, cellNo: nat, key: nat, value: seq<byte>, i: nat)
    requires oldNode != newNode && oldNode.Length == PAGE_SIZE && newNode.Length == PAGE_SIZE
    requires i <= LEAF_NODE_MAX_CELLS && cellNo <= LEAF_NODE_MAX_CELLS && WellSizedCell(Cell(key, value))
    modifies oldNode, newNode
    ensures oldNode[..] == StepOld(old(oldNode[..]), cellNo, Cell(key, value), i)
    ensures newNode[..] == StepNew(old(oldNode[..]), old(newNode[..]), cellNo, Cell(key, value), i)
  {
    var dst := if i >= LEAF_NODE_LEFT_SPLIT_COUNT then newNode else oldNode;
    var idx := i % LEAF_NODE_LEFT_SPLIT_COUNT;
    SplitDestinationInRange(i);
    LeafCellOffsets(idx, LEAF_NODE_MAX_CELLS);
    ghost var o, n := oldNode[..], newNode[..];
    WriteLogicalCell(dst, idx, oldNode, cellNo, key, value, i);
    if i >= LEAF_NODE_LEFT_SPLIT_COUNT {
      assert oldNode[..] == o;
    } else {
      assert newNode[..] == n;
    }
  }

  /**
   * The body of a pass: the new cell written as its row then its key, or the
   * memcpy of the old cell the logical cell i comes from.
   */
  method WriteLogicalCell(dst: array<byte>, idx: nat, oldNode: array<byte>, cellNo: nat, key: nat, value: seq<byte>, i: nat)
    requires dst.Length == PAGE_SIZE && oldNode.Length == PAGE_SIZE && idx < LEAF_NODE_MAX_CELLS
    requires i <= LEAF_NODE_MAX_CELLS && cellNo <= LEAF_NODE_MAX_CELLS && WellSizedCell(Cell(key, value))
    modifies dst
    ensures LeafCellOffset(idx) + LEAF_NODE_CELL_SIZE <= PAGE_SIZE
    ensures dst[..] == Overwrite(old(dst[..]), LeafCellOffset(idx), SlotBytes(old(oldNode[..]), cellNo, Cell(key, value), i))
  {
    LeafCellOffsets(idx, LEAF_NODE_MAX_CELLS);
    LeafCellOffsets(LEAF_NODE_MAX_CELLS, LEAF_NODE_MAX_CELLS);
    ghost var d := dst[..];
    if i == cellNo {
      WriteBytes(dst, LeafCellOffset(idx) + LEAF_NODE_VALUE_OFFSET, value);
      SetU32(dst, LeafCellOffset(idx) + LEAF_NODE_KEY_OFFSET, key);
      OverwriteAdjacent(d, LeafCellOffset(idx), EncodeU32(key), value);
    } else if i > cellNo {
      MemCopy(dst, LeafCellOffset(idx), oldNode, LeafCellOffset(i - 1), LEAF_NODE_CELL_SIZE);
    } else {
      MemCopy(dst, LeafCellOffset(idx), oldNode, LeafCellOffset(i), LEAF_NODE_CELL_SIZE);
    }
  }

  /**
   * left and right are the two leaves a split of the full leaf `before` leaves:
   * both are leaves, right is not a root, left keeps the parent pointer; the
   * left holds LEFT cells and the right RIGHT cells, and together, left then
   * right, they are the cells of `before` with c inserted at cellNo; the right
   * leaf takes over the next-leaf pointer of `before` and the left one points
   * to the right one's page.
   */
  ghost predicate SplitLeaves(before: seq<byte>, cellNo: nat, c: Cell, left: seq<byte>, right: seq<byte>, rightPageNo: nat)
    requires LeafFits(before) && LeafNumCells(before) == LEAF_NODE_MAX_CELLS && cellNo <= LEAF_NODE_MAX_CELLS
  {
    LeafFits(left) && LeafFits(right) &&
    NodeTypeOf(left) == NODE_LEAF && NodeTypeOf(right) == NODE_LEAF && !IsNodeRoot(right) &&
    ParentPointer(left) == ParentPointer(before) &&
    LeafNumCells(left) == LEAF_NODE_LEFT_SPLIT_COUNT && LeafNumCells(right) == LEAF_NODE_RIGHT_SPLIT_COUNT &&
    LeafCells(left) + LeafCells(right) == SplitAll(before, cellNo, c) &&
    LeafNextLeaf(left) == rightPageNo && LeafNextLeaf(right) == LeafNextLeaf(before)
  }

  /** The cells of a leaf are unchanged by a write inside its header that leaves the count alone. */
  lemma HeaderWriteKeepsLeafCells(s: seq<byte>, off: nat, b: seq<byte>)
    requires LeafFits(s) && off + |b| <= LEAF_NODE_HEADER_SIZE
    requires off >= LEAF_NODE_NEXT_LEAF_OFFSET || off + |b| <= LEAF_NODE_NUM_CELLS_OFFSET
    ensures LeafFits(Overwrite(s, off, b)) && LeafNumCells(Overwrite(s, off, b)) == LeafNumCells(s)
    ensures LeafCells(Overwrite(s, off, b)) == LeafCells(s)
  {
    ReadU32Frame(s, Overwrite(s, off, b), LEAF_NODE_NUM_CELLS_OFFSET);
    HeaderWriteKeepsCells(s, off, b);
  }

  /**
   * The writes of leaf_node_split_and_insert to the two pages make up the split:
   * o1 is the old page with its next-leaf pointer set to the new page, n1 the new
   * page initialized as a leaf with the old next-leaf pointer, o2 and n2 the
   * pages after the loop, and then both counts are set.
   */
  lemma SplitWritesMakeLeaves(o0: seq<byte>, cellNo: nat, c: Cell, newPageNo: nat,
                              o1: seq<byte>, n1: seq<byte>, o2: seq<byte>, n2: seq<byte>)
    requires LeafFits(o0) && LeafNumCells(o0) == LEAF_NODE_MAX_CELLS && cellNo <= LEAF_NODE_MAX_CELLS
    requires NodeTypeOf(o0) == NODE_LEAF && WellSizedCell(c) && newPageNo < U32_LIMIT
    requires o1 == Overwrite(o0, LEAF_NODE_NEXT_LEAF_OFFSET, EncodeU32(newPageNo))
    requires |n1| == PAGE_SIZE && NodeTypeOf(n1) == NODE_LEAF && !IsNodeRoot(n1) && LeafNextLeaf(n1) == LeafNextLeaf(o0)
    requires |o2| == PAGE_SIZE && |n2| == PAGE_SIZE
    requires LeafFits(o1) && LeafNumCells(o1) == LEAF_NODE_MAX_CELLS
    requires forall j :: 0 <= j < LEAF_NODE_LEFT_SPLIT_COUNT ==> LeafCellAt(o2, j) == SplitAll(o1, cellNo, c)[j]
    requires forall j :: 0 <= j < LEAF_NODE_RIGHT_SPLIT_COUNT ==>
               LeafCellAt(n2, j) == SplitAll(o1, cellNo, c)[j + LEAF_NODE_LEFT_SPLIT_COUNT]
    requires forall k :: 0 <= k < LEAF_NODE_HEADER_SIZE ==> o2[k] == o1[k] && n2[k] == n1[k]
    ensures SplitLeaves(o0, cellNo, c,
                        Overwrite(o2, LEAF_NODE_NUM_CELLS_OFFSET, EncodeU32(LEAF_NODE_LEFT_SPLIT_COUNT)),
                        Overwrite(n2, LEAF_NODE_NUM_CELLS_OFFSET, EncodeU32(LEAF_NODE_RIGHT_SPLIT_COUNT)),
                        newPageNo)
  {
    LeafLayoutFacts();
    var o3 := Overwrite(o2, LEAF_NODE_NUM_CELLS_OFFSET, EncodeU32(LEAF_NODE_LEFT_SPLIT_COUNT));
    var n3 := Overwrite(n2, LEAF_NODE_NUM_CELLS_OFFSET, EncodeU32(LEAF_NODE_RIGHT_SPLIT_COUNT));
    HeaderWriteKeepsLeafCells(o0, LEAF_NODE_NEXT_LEAF_OFFSET, EncodeU32(newPageNo));
    assert SplitAll(o1, cellNo, c) == SplitAll(o0, cellNo, c);
    var all := SplitAll(o0, cellNo, c);
    ReadWrittenU32(o2, LEAF_NODE_NUM_CELLS_OFFSET, LEAF_NODE_LEFT_SPLIT_COUNT);
    ReadWrittenU32(n2, LEAF_NODE_NUM_CELLS_OFFSET, LEAF_NODE_RIGHT_SPLIT_COUNT);
    HeaderWriteKeepsCells(o2, LEAF_NODE_NUM_CELLS_OFFSET, EncodeU32(LEAF_NODE_LEFT_SPLIT_COUNT));
    HeaderWriteKeepsCells(n2, LEAF_NODE_NUM_CELLS_OFFSET, EncodeU32(LEAF_NODE_RIGHT_SPLIT_COUNT));
    assert LeafCells(o3) == all[..LEAF_NODE_LEFT_SPLIT_COUNT];
    assert LeafCells(n3) == all[LEAF_NODE_LEFT_SPLIT_COUNT..];
    assert LeafCells(o3) + LeafCells(n3) == all;
    ReadU32Frame(o0, o3, PARENT_POINTER_OFFSET);
    ReadWrittenU32(o0, LEAF_NODE_NEXT_LEAF_OFFSET, newPageNo);
    ReadU32Frame(o1, o3, LEAF_NODE_NEXT_LEAF_OFFSET);
    ReadU32Frame(n1, n3, LEAF_NODE_NEXT_LEAF_OFFSET);
    assert NodeTypeOf(o3) == NODE_LEAF && NodeTypeOf(n3) == NODE_LEAF && !IsNodeRoot(n3);
  }

  /** Clearing the root flag of the left leaf keeps the split. */
  lemma SplitLeavesClearRoot(before: seq<byte>, cellNo: nat, c: Cell, left: seq<byte>, right: seq<byte>, rightPageNo: nat)
    requires LeafFits(before) && LeafNumCells(before) == LEAF_NODE_MAX_CELLS && cellNo <= LEAF_NODE_MAX_CELLS
    requires SplitLeaves(before, cellNo, c, left, right, rightPageNo)
    ensures SplitLeaves(before, cellNo, c, Overwrite(left, IS_ROOT_OFFSET, [0]), right, rightPageNo)
    ensures !IsNodeRoot(Overwrite(left, IS_ROOT_OFFSET, [0]))
  {
    var l := Overwrite(left, IS_ROOT_OFFSET, [0]);
    HeaderWriteKeepsLeafCells(left, IS_ROOT_OFFSET, [0]);
    ReadU32Frame(left, l, PARENT_POINTER_OFFSET);
    ReadU32Frame(left, l, LEAF_NODE_NEXT_LEAF_OFFSET);
  }

  /** Setting the next-leaf pointer of a full leaf keeps it full, with the same cells. */
  lemma SplitOldPageKeepsCells(o0: seq<byte>, newPageNo: nat)
    requires LeafFits(o0) && newPageNo < U32_LIMIT
    ensures LeafFits(Overwrite(o0, LEAF_NODE_NEXT_LEAF_OFFSET, EncodeU32(newPageNo)))
    ensures LeafNumCells(Overwrite(o0, LEAF_NODE_NEXT_LEAF_OFFSET, EncodeU32(newPageNo))) == LeafNumCells(o0)
    ensures LeafCells(Overwrite(o0, LEAF_NODE_NEXT_LEAF_OFFSET, EncodeU32(newPageNo))) == LeafCells(o0)
  {
    HeaderWriteKeepsLeafCells(o0, LEAF_NODE_NEXT_LEAF_OFFSET, EncodeU32(newPageNo));
  }
}
