/**
 * The B+tree operations over the page store: binary search in a leaf, descent
 * through internal nodes, insertion into a leaf, the leaf split and the creation
 * of a new root.
 */
module BTree {
  import opened Layout
  import opened Cells
  import opened Node
  import opened PagerModel

  /** A position in the tree: a page and a cell number inside it. */
  datatype Cursor = Cursor(pageNo: nat, cellNo: nat)

  /** The keys of a leaf page, in cell order. */
  ghost function LeafKeys(s: seq<byte>): (keys: seq<nat>)
    requires LeafFits(s)
    ensures |keys| == LeafNumCells(s)
    ensures forall i :: 0 <= i < |keys| ==> keys[i] == LeafKey(s, i)
  {
    Keys(LeafCells(s))
  }

  // ---------------------------------------------------------------------------
  // Search

  /**
   * leaf_node_find: binary search of a leaf for key.  On a leaf whose keys are
   * strictly ascending the cell number is CountLess of the keys, so by
   * LeafSearchPosition it holds key when key is present, and is otherwise the
   * point where key would be inserted.
   */
  method LeafNodeFind(pager: Pager, pageNo: nat, key: nat) returns (cursor: Cursor)
    requires pageNo < |pager.pages| && LeafFits(pager.pages[pageNo][..])
    requires NodeTypeOf(pager.pages[pageNo][..]) == NODE_LEAF
    ensures cursor.pageNo == pageNo
    ensures cursor.cellNo <= LeafNumCells(pager.pages[pageNo][..])
    ensures StrictlyAscending(LeafKeys(pager.pages[pageNo][..])) ==>
              cursor.cellNo == CountLess(LeafKeys(pager.pages[pageNo][..]), key)
  {
    var node := pager.pages[pageNo];
    ghost var keys := LeafKeys(node[..]);
    ghost var sorted := StrictlyAscending(keys);
    var numCells := LeafNumCells(node[..]);
    var minIndex: nat := 0;
    var onePastMaxIndex: nat := numCells;
    while onePastMaxIndex != minIndex
      invariant minIndex <= onePastMaxIndex <= numCells
      invariant sorted ==> forall j :: 0 <= j < minIndex ==> keys[j] < key
      invariant sorted ==> forall j :: onePastMaxIndex <= j < numCells ==> keys[j] > key
      decreases onePastMaxIndex - minIndex
    {
      var index := (minIndex + onePastMaxIndex) / 2;
      var keyAtIndex := LeafKey(node[..], index);
      assert keyAtIndex == keys[index];
      if key == keyAtIndex {
        if sorted {
          CountLessAtBoundary(keys, key, index);
        }
        return Cursor(pageNo, index);
      }
      if key < keyAtIndex {
        onePastMaxIndex := index;
      } else {
        minIndex := index + 1;
      }
    }
    if sorted {
      CountLessAtBoundary(keys, key, minIndex);
    }
    cursor := Cursor(pageNo, minIndex);
  }

  /**
   * The pages reachable from p form a tree of at most `height` internal levels:
   * every reachable page exists and reads as a node, and an internal node's
   * children are one level lower.
   */
  ghost predicate HeightBounded(store: seq<seq<byte>>, p: nat, height: nat)
    decreases height
  {
    p < |store| && NodeOk(store[p]) &&
    (NodeTypeOf(store[p]) == NODE_INTERNAL ==>
       height > 0 && forall c :: c in Children(store[p]) ==> HeightBounded(store, c, height - 1))
  }

  /** Every node reachable from p keeps its keys in order: leaves strictly, internal nodes ascending. */
  ghost predicate SearchOrdered(store: seq<seq<byte>>, p: nat, height: nat)
    requires HeightBounded(store, p, height)
    decreases height
  {
    if NodeTypeOf(store[p]) == NODE_LEAF then StrictlyAscending(LeafKeys(store[p]))
    else
      Ascending(InternalKeys(store[p])) &&
      forall c :: c in Children(store[p]) ==> SearchOrdered(store, c, height - 1)
  }

  /**
   * Where a search for key ends: in a leaf, at CountLess of its keys; in an
   * internal node, down the child at CountLess of its separator keys, that is
   * the first child whose separator is at least key, or the right child.
   */
  ghost function TreeFind(store: seq<seq<byte>>, p: nat, key: nat, height: nat): (cursor: Cursor)
    requires HeightBounded(store, p, height)
    decreases height
    ensures cursor.pageNo < |store| && NodeOk(store[cursor.pageNo])
    ensures NodeTypeOf(store[cursor.pageNo]) == NODE_LEAF
    ensures cursor.cellNo <= LeafNumCells(store[cursor.pageNo])
  {
    var s := store[p];
    if NodeTypeOf(s) == NODE_LEAF then Cursor(p, CountLess(LeafKeys(s), key))
    else
      var child := Children(s)[CountLess(InternalKeys(s), key)];
      assert child in Children(s);
      TreeFind(store, child, key, height - 1)
  }

  /**
   * The binary search of internal_node_find: the index of the child to follow,
   * which on ascending separator keys is the number of separators below key.
   */
  method InternalNodeSearch(node: array<byte>, key: nat) returns (childIdx: nat)
    requires InternalFits(node[..])
    ensures childIdx <= InternalNumKeys(node[..])
    ensures Ascending(InternalKeys(node[..])) ==> childIdx == CountLess(InternalKeys(node[..]), key)
  {
    ghost var keys := InternalKeys(node[..]);
    ghost var sorted := Ascending(keys);
    var keysCount := InternalNumKeys(node[..]);
    var minIdx: nat := 0;
    var maxIdx: nat := keysCount;
    while minIdx != maxIdx
      invariant minIdx <= maxIdx <= keysCount
      invariant sorted ==> forall j :: 0 <= j < minIdx ==> keys[j] < key
      invariant sorted ==> forall j :: maxIdx <= j < keysCount ==> keys[j] >= key
      decreases maxIdx - minIdx
    {
      var idx := (minIdx + maxIdx) / 2;
      var keyRight := InternalKey(node[..], idx);
      if keyRight >= key {
        maxIdx := idx;
      } else {
        minIdx := idx + 1;
      }
    }
    if sorted {
      CountLessAtBoundary(keys, key, minIdx);
    }
    childIdx := minIdx;
  }

  /**
   * One step of the descent through child childIdx of internal page p, where
   * childIdx is CountLess of the separators when they ascend: internal_node_child
   * reads that child, it lies one level lower and is ordered when p is, and the
   * search from p is the search from it.
   */
  lemma DescendOneLevel(store: seq<seq<byte>>, p: nat, key: nat, height: nat, childIdx: nat)
    requires HeightBounded(store, p, height) && NodeTypeOf(store[p]) == NODE_INTERNAL
    requires childIdx <= InternalNumKeys(store[p])
    requires Ascending(InternalKeys(store[p])) ==> childIdx == CountLess(InternalKeys(store[p]), key)
    ensures InternalChild(store[p], childIdx).Ok?
    ensures var child := InternalChild(store[p], childIdx).value;
            HeightBounded(store, child, height - 1) &&
            (SearchOrdered(store, p, height) ==>
               SearchOrdered(store, child, height - 1) &&
               TreeFind(store, p, key, height) == TreeFind(store, child, key, height - 1))
  {
    InternalChildIsChildrenEntry(store[p], childIdx);
    var child := Children(store[p])[childIdx];
    assert child in Children(store[p]);
  }

  /**
   * internal_node_find: the child found by the binary search over the separator
   * keys, then the same search in that child, down to a leaf.  On an ordered
   * tree this is TreeFind.
   */
  method InternalNodeFind(pager: Pager, pageNo: nat, key: nat, ghost height: nat) returns (cursor: Cursor)
    requires HeightBounded(pager.Store(), pageNo, height)
    requires NodeTypeOf(pager.pages[pageNo][..]) == NODE_INTERNAL
    decreases height
    ensures cursor.pageNo < |pager.pages| && LeafFits(pager.pages[cursor.pageNo][..])
    ensures NodeTypeOf(pager.pages[cursor.pageNo][..]) == NODE_LEAF
    ensures cursor.cellNo <= LeafNumCells(pager.pages[cursor.pageNo][..])
    ensures SearchOrdered(pager.Store(), pageNo, height) ==> cursor == TreeFind(pager.Store(), pageNo, key, height)
  {
    var node := pager.pages[pageNo];
    ghost var store := pager.Store();
    assert node[..] == store[pageNo];
    var childIdx := InternalNodeSearch(node, key);
    DescendOneLevel(store, pageNo, key, height, childIdx);
    var childNo := InternalChild(node[..], childIdx).value;
    var child := pager.pages[childNo];
    assert child[..] == store[childNo];
    if NodeTypeOf(child[..]) == NODE_LEAF {
      cursor := LeafNodeFind(pager, childNo, key);
    } else {
      cursor := InternalNodeFind(pager, childNo, key, height - 1);
    }
    assert pager.Store() == store;
  }

  /**
   * get_node_max_key on a leaf: the key of its last cell.  The source reads cell
   * count - 1, so a leaf without cells is outside its domain.
   */
  function GetNodeMaxKey(s: seq<byte>): (maxKey: nat)
    requires LeafFits(s) && NodeTypeOf(s) == NODE_LEAF && LeafNumCells(s) >= 1
    ensures maxKey < U32_LIMIT
    ensures maxKey == LeafCells(s)[LeafNumCells(s) - 1].key
  {
    LeafKey(s, LeafNumCells(s) - 1)
  }

  /** get_node_max_key gives one of the leaf's keys, and on a strictly ascending leaf the largest. */
  lemma MaxKeyIsLargest(s: seq<byte>)
    requires LeafFits(s) && NodeTypeOf(s) == NODE_LEAF && LeafNumCells(s) >= 1
    ensures GetNodeMaxKey(s) in LeafKeys(s)
    ensures StrictlyAscending(LeafKeys(s)) ==> forall k :: k in LeafKeys(s) ==> k <= GetNodeMaxKey(s)
  {
    var keys := LeafKeys(s);
    assert keys[|keys| - 1] == GetNodeMaxKey(s);
    if StrictlyAscending(keys) {
      forall k | k in keys ensures k <= GetNodeMaxKey(s) {
        var w :| 0 <= w < |keys| && keys[w] == k;
        if w < |keys| - 1 {
          assert keys[w] < keys[|keys| - 1];
        }
      }
    }
  }

  // ---------------------------------------------------------------------------
  // Insertion into a leaf

  /**
   * The bytes of a leaf other than its cell count and its first n cells are the
   * same in before and after: the common header, the next-leaf pointer and the
   * unused tail of the page.
   */
  ghost predicate LeafFrameKept(before: seq<byte>, after: seq<byte>, n: nat) {
    |before| == PAGE_SIZE && |after| == PAGE_SIZE &&
    forall k ::
      (0 <= k < PAGE_SIZE && !(LEAF_NODE_NUM_CELLS_OFFSET <= k < LEAF_NODE_NEXT_LEAF_OFFSET) &&
       !(LEAF_NODE_HEADER_SIZE <= k < LeafCellOffset(n))) ==> after[k] == before[k]
  }

  /**
   * after is before with cell c inserted at cellNo: one more cell, the cells
   * before cellNo in place, c at cellNo, the cells from cellNo on one slot up,
   * and every other byte as it was.
   */
  ghost predicate LeafInserted(before: seq<byte>, after: seq<byte>, cellNo: nat, c: Cell)
    requires LeafFits(before) && LeafNumCells(before) < LEAF_NODE_MAX_CELLS
    requires cellNo <= LeafNumCells(before)
  {
    LeafFits(after) && LeafNumCells(after) == LeafNumCells(before) + 1 &&
    LeafCells(after) == InsertAt(LeafCells(before), cellNo, c) &&
    LeafFrameKept(before, after, LeafNumCells(after))
  }

  /** The bytes of leaf s0 once the cells in slots i..n-1 have been copied one slot up. */
  ghost function ShiftedUp(s0: seq<byte>, i: nat, n: nat): (s: seq<byte>)
    requires |s0| == PAGE_SIZE && i <= n < LEAF_NODE_MAX_CELLS
    ensures |s| == PAGE_SIZE
  {
    if i == n then s0 else Overwrite(s0, LeafCellOffset(i + 1), s0[LeafCellOffset(i)..LeafCellOffset(n)])
  }

  /** The shift leaves the bytes before slot i + 1 and from slot n + 1 on untouched. */
  lemma ShiftedUpFrame(s0: seq<byte>, i: nat, n: nat)
    requires |s0| == PAGE_SIZE && i <= n < LEAF_NODE_MAX_CELLS
    ensures forall k :: 0 <= k < PAGE_SIZE && (k < LeafCellOffset(i + 1) || k >= LeafCellOffset(n + 1)) ==>
              ShiftedUp(s0, i, n)[k] == s0[k]
  {
  }

  /** One pass of the shift loop: copying slot i - 1 into slot i moves the boundary down by one. */
  lemma ShiftStep(s0: seq<byte>, i: nat, n: nat)
    requires |s0| == PAGE_SIZE && 0 < i <= n < LEAF_NODE_MAX_CELLS
    ensures var s := ShiftedUp(s0, i, n);
            Overwrite(s, LeafCellOffset(i), s[LeafCellOffset(i - 1)..LeafCellOffset(i - 1) + LEAF_NODE_CELL_SIZE])
              == ShiftedUp(s0, i - 1, n)
  {
    var s := ShiftedUp(s0, i, n);
    var t := Overwrite(s, LeafCellOffset(i), s[LeafCellOffset(i - 1)..LeafCellOffset(i - 1) + LEAF_NODE_CELL_SIZE]);
    var u := ShiftedUp(s0, i - 1, n);
    forall k | 0 <= k < PAGE_SIZE ensures t[k] == u[k] {
    }
  }

  /** The bytes leaf_node_insert leaves: the shift, the incremented count, and c in slot cellNo. */
  ghost function InsertedBytes(s0: seq<byte>, cellNo: nat, c: Cell): (s: seq<byte>)
    requires LeafFits(s0) && LeafNumCells(s0) < LEAF_NODE_MAX_CELLS && cellNo <= LeafNumCells(s0)
    requires WellSizedCell(c)
    ensures |s| == PAGE_SIZE
  {
    var n := LeafNumCells(s0);
    var counted := Overwrite(ShiftedUp(s0, cellNo, n), LEAF_NODE_NUM_CELLS_OFFSET, EncodeU32(n + 1));
    Overwrite(counted, LeafCellOffset(cellNo), EncodeCell(c))
  }

  /** After the shift, the cells up to slot i are in place and slots i+1..n hold the cells from one slot below. */
  lemma ShiftedUpCells(s0: seq<byte>, i: nat, n: nat)
    requires |s0| == PAGE_SIZE && i <= n < LEAF_NODE_MAX_CELLS
    ensures forall e :: 0 <= e <= i ==> LeafCellAt(ShiftedUp(s0, i, n), e) == LeafCellAt(s0, e)
    ensures forall e :: i < e <= n ==> LeafCellAt(ShiftedUp(s0, i, n), e) == LeafCellAt(s0, e - 1)
  {
    forall e | 0 <= e <= i ensures LeafCellAt(ShiftedUp(s0, i, n), e) == LeafCellAt(s0, e) {
      ShiftedUpKeeps(s0, i, n, e);
    }
    forall e | i < e <= n ensures LeafCellAt(ShiftedUp(s0, i, n), e) == LeafCellAt(s0, e - 1) {
      ShiftedUpMoves(s0, i, n, e);
    }
  }

  lemma ShiftedUpKeeps(s0: seq<byte>, i: nat, n: nat, e: nat)
    requires |s0| == PAGE_SIZE && e <= i <= n < LEAF_NODE_MAX_CELLS
    ensures LeafCellAt(ShiftedUp(s0, i, n), e) == LeafCellAt(s0, e)
  {
    LeafCellOffsets(e, i + 1);
    LeafCellMoved(s0, e, ShiftedUp(s0, i, n), e);
  }

  lemma ShiftedUpMoves(s0: seq<byte>, i: nat, n: nat, e: nat)
    requires |s0| == PAGE_SIZE && i < e <= n < LEAF_NODE_MAX_CELLS
    ensures LeafCellAt(ShiftedUp(s0, i, n), e) == LeafCellAt(s0, e - 1)
  {
    var t := ShiftedUp(s0, i, n);
    var lo, hi := LeafCellOffset(i), LeafCellOffset(n);
    var moved := s0[lo..hi];
    LeafCellOffsets(e, n + 1);
    LeafCellOffsets(i, e);
    LeafCellOffsets(n, n + 1);
    assert t == Overwrite(s0, lo + LEAF_NODE_CELL_SIZE, moved);
    forall k | LeafCellOffset(e) <= k < LeafCellOffset(e) + LEAF_NODE_CELL_SIZE
      ensures t[k] == s0[k - LeafCellOffset(e) + LeafCellOffset(e - 1)]
    {
      assert lo + LEAF_NODE_CELL_SIZE <= k < lo + LEAF_NODE_CELL_SIZE + |moved|;
      assert t[k] == moved[k - lo - LEAF_NODE_CELL_SIZE];
    }
    LeafCellMoved(s0, e - 1, t, e);
  }

  /** Cell e of those bytes is cell e of the old cells with c inserted at cellNo. */
  lemma InsertedCellAt(s0: seq<byte>, cellNo: nat, c: Cell, e: nat)
    requires LeafFits(s0) && LeafNumCells(s0) < LEAF_NODE_MAX_CELLS && cellNo <= LeafNumCells(s0)
    requires WellSizedCell(c) && e <= LeafNumCells(s0)
    ensures LeafCellAt(InsertedBytes(s0, cellNo, c), e) == InsertAt(LeafCells(s0), cellNo, c)[e]
  {
    var n := LeafNumCells(s0);
    var shifted := ShiftedUp(s0, cellNo, n);
    var counted := Overwrite(shifted, LEAF_NODE_NUM_CELLS_OFFSET, EncodeU32(n + 1));
    var after := Overwrite(counted, LeafCellOffset(cellNo), EncodeCell(c));
    assert after == InsertedBytes(s0, cellNo, c);
    OverwriteLeafCell(counted, cellNo, c);
    if e != cellNo {
      ShiftedUpCells(s0, cellNo, n);
      HeaderWriteKeepsCells(shifted, LEAF_NODE_NUM_CELLS_OFFSET, EncodeU32(n + 1));
      if e < cellNo {
        assert LeafCellAt(after, e) == LeafCellAt(shifted, e) == LeafCellAt(s0, e);
      } else {
        assert LeafCellAt(after, e) == LeafCellAt(shifted, e) == LeafCellAt(s0, e - 1);
      }
    }
  }

  /** The count and the cells of those bytes: one more cell, c inserted at cellNo. */
  lemma InsertedCells(s0: seq<byte>, cellNo: nat, c: Cell)
    requires LeafFits(s0) && LeafNumCells(s0) < LEAF_NODE_MAX_CELLS && cellNo <= LeafNumCells(s0)
    requires WellSizedCell(c)
    ensures LeafFits(InsertedBytes(s0, cellNo, c))
    ensures LeafNumCells(InsertedBytes(s0, cellNo, c)) == LeafNumCells(s0) + 1
    ensures LeafCells(InsertedBytes(s0, cellNo, c)) == InsertAt(LeafCells(s0), cellNo, c)
  {
    var n := LeafNumCells(s0);
    var shifted := ShiftedUp(s0, cellNo, n);
    var counted := Overwrite(shifted, LEAF_NODE_NUM_CELLS_OFFSET, EncodeU32(n + 1));
    var after := Overwrite(counted, LeafCellOffset(cellNo), EncodeCell(c));
    assert after == InsertedBytes(s0, cellNo, c);
    ReadWrittenU32(shifted, LEAF_NODE_NUM_CELLS_OFFSET, n + 1);
    ReadU32Frame(counted, after, LEAF_NODE_NUM_CELLS_OFFSET);
    var want := InsertAt(LeafCells(s0), cellNo, c);
    forall e | 0 <= e <= n ensures LeafCellAt(after, e) == want[e] {
      InsertedCellAt(s0, cellNo, c, e);
    }
    assert LeafCells(after) == want;
  }

  /** The other bytes of those bytes are those of s0. */
  lemma InsertedFrame(s0: seq<byte>, cellNo: nat, c: Cell)
    requires LeafFits(s0) && LeafNumCells(s0) < LEAF_NODE_MAX_CELLS && cellNo <= LeafNumCells(s0)
    requires WellSizedCell(c)
    ensures LeafFrameKept(s0, InsertedBytes(s0, cellNo, c), LeafNumCells(s0) + 1)
  {
    var n := LeafNumCells(s0);
    var shifted := ShiftedUp(s0, cellNo, n);
    var counted := Overwrite(shifted, LEAF_NODE_NUM_CELLS_OFFSET, EncodeU32(n + 1));
    var after := Overwrite(counted, LeafCellOffset(cellNo), EncodeCell(c));
    assert after == InsertedBytes(s0, cellNo, c);
    LeafCellOffsets(cellNo, n + 1);
    ShiftedUpFrame(s0, cellNo, n);
    var cellStart, cellsEnd := LeafCellOffset(cellNo), LeafCellOffset(n + 1);
    assert cellStart + |EncodeCell(c)| <= cellsEnd;
    forall k | 0 <= k < PAGE_SIZE && !(LEAF_NODE_NUM_CELLS_OFFSET <= k < LEAF_NODE_NEXT_LEAF_OFFSET) &&
               !(LEAF_NODE_HEADER_SIZE <= k < cellsEnd)
      ensures after[k] == s0[k]
    {
      assert k < cellStart || k >= cellsEnd;
      assert after[k] == counted[k];
      assert counted[k] == shifted[k];
    }
  }

  /** Those bytes are the leaf with c inserted at cellNo. */
  lemma InsertWrites(s0: seq<byte>, cellNo: nat, c: Cell)
    requires LeafFits(s0) && LeafNumCells(s0) < LEAF_NODE_MAX_CELLS && cellNo <= LeafNumCells(s0)
    requires WellSizedCell(c)
    ensures LeafInserted(s0, InsertedBytes(s0, cellNo, c), cellNo, c)
  {
    InsertedCells(s0, cellNo, c);
    InsertedFrame(s0, cellNo, c);
  }

  /** The three writes of leaf_node_insert after the shift make up InsertedBytes. */
  lemma InsertWritesCompose(s0: seq<byte>, cellNo: nat, c: Cell,
                            shifted: seq<byte>, counted: seq<byte>, keyed: seq<byte>, after: seq<byte>)
    requires LeafFits(s0) && LeafNumCells(s0) < LEAF_NODE_MAX_CELLS && cellNo <= LeafNumCells(s0)
    requires WellSizedCell(c)
    requires shifted == ShiftedUp(s0, cellNo, LeafNumCells(s0))
    requires counted == Overwrite(shifted, LEAF_NODE_NUM_CELLS_OFFSET, EncodeU32(LeafNumCells(s0) + 1))
    requires LeafCellOffset(cellNo) + LEAF_NODE_CELL_SIZE <= PAGE_SIZE
    requires keyed == Overwrite(counted, LeafCellOffset(cellNo) + LEAF_NODE_KEY_OFFSET, EncodeU32(c.key))
    requires after == Overwrite(keyed, LeafCellOffset(cellNo) + LEAF_NODE_VALUE_OFFSET, c.value)
    ensures after == InsertedBytes(s0, cellNo, c)
  {
    OverwriteAdjacent(counted, LeafCellOffset(cellNo), EncodeU32(c.key), c.value);
  }

  /**
   * The shift loop of leaf_node_insert: the cells in slots cellNo..numCells-1
   * are copied one slot up, the last one first.
   */
  method ShiftCellsUp(node: array<byte>, cellNo: nat, numCells: nat)
    requires node.Length == PAGE_SIZE && cellNo <= numCells < LEAF_NODE_MAX_CELLS
    modifies node
    ensures node[..] == ShiftedUp(old(node[..]), cellNo, numCells)
  {
    ghost var s0 := node[..];
    var i := numCells;
    while i > cellNo
      invariant cellNo <= i <= numCells
      invariant node[..] == ShiftedUp(s0, i, numCells)
    {
      ghost var before := node[..];
      ShiftStep(s0, i, numCells);
      MemCopy(node, LeafCellOffset(i), node, LeafCellOffset(i - 1), LEAF_NODE_CELL_SIZE);
      assert node[..] == Overwrite(before, LeafCellOffset(i),
                                   before[LeafCellOffset(i - 1)..LeafCellOffset(i - 1) + LEAF_NODE_CELL_SIZE]);
      i := i - 1;
    }
  }

  /**
   * leaf_node_insert on a leaf with room: the cells from cellNo on are moved up
   * one slot, then the count is incremented and the key and the row are written
   * into slot cellNo.
   */
  method LeafNodeInsertInPlace(node: array<byte>, cellNo: nat, key: nat, value: seq<byte>)
    requires LeafFits(node[..]) && LeafNumCells(node[..]) < LEAF_NODE_MAX_CELLS
    requires cellNo <= LeafNumCells(node[..]) && WellSizedCell(Cell(key, value))
    modifies node
    ensures LeafInserted(old(node[..]), node[..], cellNo, Cell(key, value))
  {
    ghost var s0 := node[..];
    var numCells := LeafNumCells(node[..]);
    if cellNo < numCells {
      ShiftCellsUp(node, cellNo, numCells);
    }
    ghost var shifted := node[..];
    LeafCellOffsets(cellNo, cellNo + 1);
    LeafCellOffsets(cellNo + 1, cellNo + 1);
    SetU32(node, LEAF_NODE_NUM_CELLS_OFFSET, numCells + 1);
    ghost var counted := node[..];
    SetU32(node, LeafCellOffset(cellNo) + LEAF_NODE_KEY_OFFSET, key);
    ghost var keyed := node[..];
    WriteBytes(node, LeafCellOffset(cellNo) + LEAF_NODE_VALUE_OFFSET, value);
    InsertWritesCompose(s0, cellNo, Cell(key, value), shifted, counted, keyed, node[..]);
    InsertWrites(s0, cellNo, Cell(key, value));
  }

  /**
   * Inserting a missing key at the position leaf_node_find returns for it keeps
   * the leaf strictly ordered, and a search of the new leaf finds the new cell
   * and every cell it held before.
   */
  lemma LeafInsertKeepsSearch(before: seq<byte>, after: seq<byte>, c: Cell)
    requires LeafFits(before) && LeafNumCells(before) < LEAF_NODE_MAX_CELLS
    requires StrictlyAscending(LeafKeys(before)) && c.key !in LeafKeys(before)
    requires LeafInserted(before, after, CountLess(LeafKeys(before), c.key), c)
    ensures StrictlyAscending(LeafKeys(after))
    ensures forall d :: d == c || d in LeafCells(before) ==>
              CountLess(LeafKeys(after), d.key) < LeafNumCells(after) &&
              LeafCells(after)[CountLess(LeafKeys(after), d.key)] == d
  {
    InsertAtPositionKeepsOrder(LeafCells(before), c);
    forall d | d == c || d in LeafCells(before)
      ensures CountLess(LeafKeys(after), d.key) < LeafNumCells(after) &&
              LeafCells(after)[CountLess(LeafKeys(after), d.key)] == d
    {
      InsertThenFind(LeafCells(before), c, d);
    }
  }
}
