/**
 * Insertion at the level of the page store: leaf_node_insert with its two
 * paths, the in-place insert and the split, and create_new_root, which turns a
 * split root leaf into a one-key internal root over the two halves.
 */
module TreeInsert {
  import opened Layout
  import opened Cells
  import opened Node
  import opened PagerModel
  import opened BTree
  import opened LeafSplit

  /** The fatal exit of leaf_node_split_and_insert: a split leaf that is not the root has no parent update. */
  datatype InsertError = SplitParentUnsupported

  /** How an insertion ended: done, or stopped at the source's fatal exit. */
  datatype Outcome = Pass | Fail(error: InsertError)

  /**
   * root is the internal root create_new_root builds over the leaves at
   * leftPageNo and rightPageNo: one separator, the largest key of the left leaf.
   */
  ghost predicate NewRoot(root: seq<byte>, left: seq<byte>, leftPageNo: nat, rightPageNo: nat)
    requires LeafFits(left) && NodeTypeOf(left) == NODE_LEAF && LeafNumCells(left) >= 1
  {
    InternalFits(root) && NodeTypeOf(root) == NODE_INTERNAL && IsNodeRoot(root) &&
    InternalKeys(root) == [GetNodeMaxKey(left)] && Children(root) == [leftPageNo, rightPageNo]
  }

  /**
   * create_new_root: the root leaf is copied to a new page, which is the left
   * child and no longer flagged as root; the root page becomes an internal root
   * with the left child, its largest key and the given right child.  The root
   * keeps its page number and its parent pointer, the bytes past its first cell
   * are left as they were, and (by the frame) no other page changes.
   */
  method CreateNewRoot(pager: Pager, rootPageNo: nat, rightChildPageNo: nat) returns (leftChildPageNo: nat)
    requires pager.Valid() && rootPageNo < |pager.pages|
    requires LeafFits(pager.pages[rootPageNo][..]) && NodeTypeOf(pager.pages[rootPageNo][..]) == NODE_LEAF
    requires LeafNumCells(pager.pages[rootPageNo][..]) >= 1
    requires |pager.pages| < U32_LIMIT && rightChildPageNo < U32_LIMIT
    modifies pager, pager.pages[rootPageNo]
    ensures pager.Valid()
    ensures leftChildPageNo == old(|pager.pages|) && |pager.pages| == leftChildPageNo + 1
    ensures pager.pages[leftChildPageNo][..] == Overwrite(old(pager.pages[rootPageNo][..]), IS_ROOT_OFFSET, [0])
    ensures LeafFits(pager.pages[leftChildPageNo][..]) && NodeTypeOf(pager.pages[leftChildPageNo][..]) == NODE_LEAF
    ensures LeafNumCells(pager.pages[leftChildPageNo][..]) == old(LeafNumCells(pager.pages[rootPageNo][..]))
    ensures NewRoot(pager.pages[rootPageNo][..], pager.pages[leftChildPageNo][..], leftChildPageNo, rightChildPageNo)
    ensures ParentPointer(pager.pages[rootPageNo][..]) == old(ParentPointer(pager.pages[rootPageNo][..]))
    ensures forall k :: InternalCellOffset(1) <= k < PAGE_SIZE ==> pager.pages[rootPageNo][k] == old(pager.pages[rootPageNo][k])
    ensures pager.pages[..leftChildPageNo] == old(pager.pages) && fresh(pager.pages[leftChildPageNo])
  {
    var root := pager.pages[rootPageNo];
    ghost var r0 := root[..];
    leftChildPageNo := pager.GetUnusedPageNum();
    var newPageNo := pager.AllocatePage();
    var leftChild := pager.pages[leftChildPageNo];
    MemCopy(leftChild, 0, root, 0, PAGE_SIZE);
    assert leftChild[..] == r0;  // the whole-page memcpy makes the left child a copy of the root
    SetNodeRoot(leftChild, false);
    ReadU32Frame(r0, leftChild[..], LEAF_NODE_NUM_CELLS_OFFSET);
    WriteNewRoot(root, leftChild, leftChildPageNo, rightChildPageNo);
  }

  /**
   * The second half of create_new_root: the root page is initialized as an
   * internal node, flagged as root, and given one key, the largest key of the
   * left child, between the left child and the right child.
   */
  method WriteNewRoot(root: array<byte>, leftChild: array<byte>, leftChildPageNo: nat, rightChildPageNo: nat)
    requires root != leftChild && root.Length == PAGE_SIZE
    requires LeafFits(leftChild[..]) && NodeTypeOf(leftChild[..]) == NODE_LEAF && LeafNumCells(leftChild[..]) >= 1
    requires leftChildPageNo < U32_LIMIT && rightChildPageNo < U32_LIMIT
    modifies root
    ensures NewRoot(root[..], leftChild[..], leftChildPageNo, rightChildPageNo)
    ensures ParentPointer(root[..]) == old(ParentPointer(root[..]))
    ensures forall k :: InternalCellOffset(1) <= k < PAGE_SIZE ==> root[k] == old(root[k])
  {
    ghost var r0 := root[..];
    InitializeRootHeader(root);
    ghost var counted := root[..];
    var childOff := InternalChildOffset(root[..], 0).value;
    SetU32(root, childOff, leftChildPageNo);
    ghost var childSet := root[..];
    var maxKey := GetNodeMaxKey(leftChild[..]);
    SetU32(root, InternalCellOffset(0) + INTERNAL_NODE_CHILD_SIZE, maxKey);
    ghost var keySet := root[..];
    SetU32(root, INTERNAL_NODE_RIGHT_CHILD_OFFSET, rightChildPageNo);
    ghost var r := root[..];
    ReadU32Frame(counted, r, INTERNAL_NODE_NUM_KEYS_OFFSET);
    ReadU32Frame(counted, r, PARENT_POINTER_OFFSET);
    ReadU32Frame(childSet, r, InternalCellOffset(0));
    ReadU32Frame(keySet, r, InternalCellOffset(0) + INTERNAL_NODE_CHILD_SIZE);
    assert InternalKeys(r)[0] == maxKey;
    assert Children(r)[0] == leftChildPageNo && Children(r)[1] == rightChildPageNo;
  }

  /** The header writes of create_new_root: an internal node, flagged as root, with one key. */
  method InitializeRootHeader(root: array<byte>)
    requires root.Length == PAGE_SIZE
    modifies root
    ensures NodeTypeOf(root[..]) == NODE_INTERNAL && IsNodeRoot(root[..]) && InternalNumKeys(root[..]) == 1
    ensures ParentPointer(root[..]) == old(ParentPointer(root[..]))
    ensures forall k :: INTERNAL_NODE_RIGHT_CHILD_OFFSET <= k < PAGE_SIZE ==> root[k] == old(root[k])
  {
    ghost var r0 := root[..];
    InitializeInternalNode(root);
    SetNodeRoot(root, true);
    SetU32(root, INTERNAL_NODE_NUM_KEYS_OFFSET, 1);
    ReadU32Frame(r0, root[..], PARENT_POINTER_OFFSET);
  }

  /**
   * leaf_node_split_and_insert: a new page is taken at the end of the store and
   * initialized as a leaf, spliced into the leaf chain after the old leaf, and
   * the MAX + 1 cells of the old leaf with the new cell are spread over the two.
   * A root leaf then gets a new root above the two halves, the left half moving
   * to a further new page; for a non-root leaf the update of its parent is not
   * implemented and the insert stops with SplitParentUnsupported, the two
   * halves written.
   */
  method LeafNodeSplitAndInsert(pager: Pager, pageNo: nat, cellNo: nat, key: nat, value: seq<byte>, rootPageNo: nat)
    returns (outcome: Outcome)
    requires pager.Valid() && pageNo < |pager.pages|
    requires LeafFits(pager.pages[pageNo][..]) && NodeTypeOf(pager.pages[pageNo][..]) == NODE_LEAF
    requires LeafNumCells(pager.pages[pageNo][..]) == LEAF_NODE_MAX_CELLS
    requires cellNo <= LEAF_NODE_MAX_CELLS && WellSizedCell(Cell(key, value))
    requires |pager.pages| + 1 < U32_LIMIT
    requires IsNodeRoot(pager.pages[pageNo][..]) ==> rootPageNo == pageNo
    modifies pager, pager.pages[pageNo]
    ensures pager.Valid()
    ensures outcome == if old(IsNodeRoot(pager.pages[pageNo][..])) then Pass else Fail(SplitParentUnsupported)
    ensures old(|pager.pages|) < |pager.pages| && pager.pages[..old(|pager.pages|)] == old(pager.pages)
    ensures outcome.Fail? ==>
              |pager.pages| == old(|pager.pages|) + 1 && fresh(pager.pages[old(|pager.pages|)]) &&
              !IsNodeRoot(pager.pages[pageNo][..]) &&
              SplitLeaves(old(pager.pages[pageNo][..]), cellNo, Cell(key, value),
                          pager.pages[pageNo][..], pager.pages[old(|pager.pages|)][..], old(|pager.pages|))
    ensures outcome.Pass? ==>
              |pager.pages| == old(|pager.pages|) + 2 &&
              fresh(pager.pages[old(|pager.pages|)]) && fresh(pager.pages[old(|pager.pages|) + 1]) &&
              !IsNodeRoot(pager.pages[old(|pager.pages|) + 1][..]) &&
              SplitLeaves(old(pager.pages[pageNo][..]), cellNo, Cell(key, value),
                          pager.pages[old(|pager.pages|) + 1][..], pager.pages[old(|pager.pages|)][..], old(|pager.pages|)) &&
              NewRoot(pager.pages[pageNo][..], pager.pages[old(|pager.pages|) + 1][..],
                      old(|pager.pages|) + 1, old(|pager.pages|))
  {
    var oldNode := pager.pages[pageNo];
    ghost var o0 := oldNode[..];
    var newPageNum := pager.GetUnusedPageNum();
    var allocatedNo := pager.AllocatePage();
    var newNode := pager.pages[newPageNum];
    SplitIntoNewLeaf(oldNode, newNode, newPageNum, cellNo, key, value);
    if IsNodeRoot(oldNode[..]) {
      ghost var o3, n3 := oldNode[..], newNode[..];
      SplitLeavesClearRoot(o0, cellNo, Cell(key, value), o3, n3, newPageNum);
      var leftPageNo := CreateNewRoot(pager, rootPageNo, newPageNum);
      assert pager.pages[newPageNum] == newNode && newNode[..] == n3;
      ghost var left := pager.pages[leftPageNo][..];
      assert left == Overwrite(o3, IS_ROOT_OFFSET, [0]);
      assert SplitLeaves(o0, cellNo, Cell(key, value), left, n3, newPageNum);
      assert NewRoot(pager.pages[pageNo][..], left, leftPageNo, newPageNum);
      outcome := Pass;
    } else {
      outcome := Fail(SplitParentUnsupported);
    }
  }

  /**
   * The page writes of leaf_node_split_and_insert: the new page becomes a leaf
   * that takes over the old leaf's next-leaf pointer, the old leaf points to
   * the new page, the cells are spread over the two and both counts are set.
   * The old page keeps its root flag.
   */
  method SplitIntoNewLeaf(oldNode: array<byte>, newNode: array<byte>, newPageNum: nat,
                          cellNo: nat, key: nat, value: seq<byte>)
    requires oldNode != newNode && newNode.Length == PAGE_SIZE
    requires LeafFits(oldNode[..]) && NodeTypeOf(oldNode[..]) == NODE_LEAF
    requires LeafNumCells(oldNode[..]) == LEAF_NODE_MAX_CELLS
    requires cellNo <= LEAF_NODE_MAX_CELLS && WellSizedCell(Cell(key, value)) && newPageNum < U32_LIMIT
    modifies oldNode, newNode
    ensures SplitLeaves(old(oldNode[..]), cellNo, Cell(key, value), oldNode[..], newNode[..], newPageNum)
    ensures IsNodeRoot(oldNode[..]) == old(IsNodeRoot(oldNode[..]))
  {
    ghost var o0 := oldNode[..];
    InitializeLeafNode(newNode);
    SetU32(newNode, LEAF_NODE_NEXT_LEAF_OFFSET, LeafNextLeaf(oldNode[..]));
    SetU32(oldNode, LEAF_NODE_NEXT_LEAF_OFFSET, newPageNum);
    ghost var o1, n1 := oldNode[..], newNode[..];
    SplitOldPageKeepsCells(o0, newPageNum);
    LeafSplitCells(oldNode, newNode, cellNo, key, value);
    ghost var o2, n2 := oldNode[..], newNode[..];
    SetU32(oldNode, LEAF_NODE_NUM_CELLS_OFFSET, LEAF_NODE_LEFT_SPLIT_COUNT);
    SetU32(newNode, LEAF_NODE_NUM_CELLS_OFFSET, LEAF_NODE_RIGHT_SPLIT_COUNT);
    SplitWritesMakeLeaves(o0, cellNo, Cell(key, value), newPageNum, o1, n1, o2, n2);
  }

  /**
   * leaf_node_insert: a full leaf is split; otherwise the cells from cellNo on
   * move up one slot, the count grows by one and the new cell is written at
   * cellNo, with no page added and no other page touched.
   */
  method LeafNodeInsert(pager: Pager, pageNo: nat, cellNo: nat, key: nat, value: seq<byte>, rootPageNo: nat)
    returns (outcome: Outcome)
    requires pager.Valid() && pageNo < |pager.pages|
    requires LeafFits(pager.pages[pageNo][..]) && NodeTypeOf(pager.pages[pageNo][..]) == NODE_LEAF
    requires cellNo <= LeafNumCells(pager.pages[pageNo][..]) && WellSizedCell(Cell(key, value))
    requires |pager.pages| + 1 < U32_LIMIT
    requires IsNodeRoot(pager.pages[pageNo][..]) ==> rootPageNo == pageNo
    modifies pager, pager.pages[pageNo]
    ensures pager.Valid()
    ensures old(LeafNumCells(pager.pages[pageNo][..])) < LEAF_NODE_MAX_CELLS ==>
              outcome == Pass && pager.pages == old(pager.pages) &&
              LeafInserted(old(pager.pages[pageNo][..]), pager.pages[pageNo][..], cellNo, Cell(key, value))
    ensures old(LeafNumCells(pager.pages[pageNo][..])) == LEAF_NODE_MAX_CELLS ==>
              outcome == (if old(IsNodeRoot(pager.pages[pageNo][..])) then Pass else Fail(SplitParentUnsupported)) &&
              old(|pager.pages|) < |pager.pages| && pager.pages[..old(|pager.pages|)] == old(pager.pages)
    ensures old(LeafNumCells(pager.pages[pageNo][..])) == LEAF_NODE_MAX_CELLS && outcome.Fail? ==>
              |pager.pages| == old(|pager.pages|) + 1 && fresh(pager.pages[old(|pager.pages|)]) &&
              !IsNodeRoot(pager.pages[pageNo][..]) &&
              SplitLeaves(old(pager.pages[pageNo][..]), cellNo, Cell(key, value),
                          pager.pages[pageNo][..], pager.pages[old(|pager.pages|)][..], old(|pager.pages|))
    ensures old(LeafNumCells(pager.pages[pageNo][..])) == LEAF_NODE_MAX_CELLS && outcome.Pass? ==>
              |pager.pages| == old(|pager.pages|) + 2 &&
              fresh(pager.pages[old(|pager.pages|)]) && fresh(pager.pages[old(|pager.pages|) + 1]) &&
              !IsNodeRoot(pager.pages[old(|pager.pages|) + 1][..]) &&
              SplitLeaves(old(pager.pages[pageNo][..]), cellNo, Cell(key, value),
                          pager.pages[old(|pager.pages|) + 1][..], pager.pages[old(|pager.pages|)][..], old(|pager.pages|)) &&
              NewRoot(pager.pages[pageNo][..], pager.pages[old(|pager.pages|) + 1][..],
                      old(|pager.pages|) + 1, old(|pager.pages|))
  {
    var node := pager.pages[pageNo];
    var numCells := ReadU32(node[..], LEAF_NODE_NUM_CELLS_OFFSET);
    if numCells >= LEAF_NODE_MAX_CELLS {
      outcome := LeafNodeSplitAndInsert(pager, pageNo, cellNo, key, value, rootPageNo);
      return;
    }
    LeafNodeInsertInPlace(node, cellNo, key, value);
    outcome := Pass;
  }

  /** The two halves of a split of strictly ordered cells are ordered, and every key on the left is below every key on the right. */
  lemma SplitHalvesOrdered(before: seq<byte>, cellNo: nat, c: Cell, left: seq<byte>, right: seq<byte>, rightNo: nat)
    requires LeafFits(before) && LeafNumCells(before) == LEAF_NODE_MAX_CELLS && cellNo <= LEAF_NODE_MAX_CELLS
    requires SplitLeaves(before, cellNo, c, left, right, rightNo)
    requires StrictlyAscending(Keys(SplitAll(before, cellNo, c)))
    ensures StrictlyAscending(LeafKeys(left)) && StrictlyAscending(LeafKeys(right))
    ensures forall a, b :: a in LeafKeys(left) && b in LeafKeys(right) ==> a < b
  {
    var all := SplitAll(before, cellNo, c);
    assert LeafCells(left) == all[..LEAF_NODE_LEFT_SPLIT_COUNT] && LeafCells(right) == all[LEAF_NODE_LEFT_SPLIT_COUNT..];
    SplitSeparatesKeys(all, LEAF_NODE_LEFT_SPLIT_COUNT);
  }

  /** A one-key internal root over two leaves is a tree of height one. */
  lemma NewRootHeight(store: seq<seq<byte>>, rootNo: nat, leftNo: nat, rightNo: nat)
    requires rootNo < |store| && leftNo < |store| && rightNo < |store|
    requires LeafFits(store[leftNo]) && NodeTypeOf(store[leftNo]) == NODE_LEAF && LeafNumCells(store[leftNo]) >= 1
    requires LeafFits(store[rightNo]) && NodeTypeOf(store[rightNo]) == NODE_LEAF
    requires NewRoot(store[rootNo], store[leftNo], leftNo, rightNo)
    ensures HeightBounded(store, rootNo, 1)
  {
    assert HeightBounded(store, leftNo, 0) && HeightBounded(store, rightNo, 0);
    assert forall ch :: ch in Children(store[rootNo]) ==> ch == leftNo || ch == rightNo;
  }

  /** A one-key internal root over two ordered leaves is a tree of height one whose keys are in order. */
  lemma NewRootIsTree(store: seq<seq<byte>>, rootNo: nat, leftNo: nat, rightNo: nat)
    requires rootNo < |store| && leftNo < |store| && rightNo < |store|
    requires LeafFits(store[leftNo]) && NodeTypeOf(store[leftNo]) == NODE_LEAF && LeafNumCells(store[leftNo]) >= 1
    requires LeafFits(store[rightNo]) && NodeTypeOf(store[rightNo]) == NODE_LEAF
    requires NewRoot(store[rootNo], store[leftNo], leftNo, rightNo)
    requires StrictlyAscending(LeafKeys(store[leftNo])) && StrictlyAscending(LeafKeys(store[rightNo]))
    ensures HeightBounded(store, rootNo, 1) && SearchOrdered(store, rootNo, 1)
  {
    NewRootHeight(store, rootNo, leftNo, rightNo);
    assert forall ch :: ch in Children(store[rootNo]) ==> ch == leftNo || ch == rightNo;
  }

  /**
   * From a one-key root, a search for a key no larger than the separator ends in
   * the left leaf and a search for a larger key in the right leaf.
   */
  lemma NewRootDescent(store: seq<seq<byte>>, rootNo: nat, leftNo: nat, rightNo: nat, key: nat)
    requires rootNo < |store| && leftNo < |store| && rightNo < |store|
    requires LeafFits(store[leftNo]) && NodeTypeOf(store[leftNo]) == NODE_LEAF && LeafNumCells(store[leftNo]) >= 1
    requires LeafFits(store[rightNo]) && NodeTypeOf(store[rightNo]) == NODE_LEAF
    requires NewRoot(store[rootNo], store[leftNo], leftNo, rightNo)
    ensures HeightBounded(store, rootNo, 1)
    ensures key <= GetNodeMaxKey(store[leftNo]) ==>
              TreeFind(store, rootNo, key, 1) == Cursor(leftNo, CountLess(LeafKeys(store[leftNo]), key))
    ensures key > GetNodeMaxKey(store[leftNo]) ==>
              TreeFind(store, rootNo, key, 1) == Cursor(rightNo, CountLess(LeafKeys(store[rightNo]), key))
  {
    NewRootHeight(store, rootNo, leftNo, rightNo);
    var m := GetNodeMaxKey(store[leftNo]);
    assert CountLess([m], key) == (if m < key then 1 else 0) by {
      assert [m][1..] == [];
    }
  }

  /** After the root split, the search for the key of any cell of the two leaves finds that cell. */
  lemma NewRootFinds(store: seq<seq<byte>>, rootNo: nat, leftNo: nat, rightNo: nat, d: Cell)
    requires rootNo < |store| && leftNo < |store| && rightNo < |store|
    requires LeafFits(store[leftNo]) && NodeTypeOf(store[leftNo]) == NODE_LEAF && LeafNumCells(store[leftNo]) >= 1
    requires LeafFits(store[rightNo]) && NodeTypeOf(store[rightNo]) == NODE_LEAF
    requires NewRoot(store[rootNo], store[leftNo], leftNo, rightNo)
    requires StrictlyAscending(LeafKeys(store[leftNo])) && StrictlyAscending(LeafKeys(store[rightNo]))
    requires forall a, b :: a in LeafKeys(store[leftNo]) && b in LeafKeys(store[rightNo]) ==> a < b
    requires d in LeafCells(store[leftNo]) + LeafCells(store[rightNo])
    ensures HeightBounded(store, rootNo, 1)
    ensures var cursor := TreeFind(store, rootNo, d.key, 1);
            cursor.cellNo < LeafNumCells(store[cursor.pageNo]) && LeafCells(store[cursor.pageNo])[cursor.cellNo] == d
  {
    var left, right := store[leftNo], store[rightNo];
    var m := GetNodeMaxKey(left);
    NewRootDescent(store, rootNo, leftNo, rightNo, d.key);
    if d in LeafCells(left) {
      SearchFindsCell(LeafCells(left), d);
      MaxKeyIsLargest(left);
      assert d.key <= m by {
        var w :| 0 <= w < |LeafCells(left)| && LeafCells(left)[w] == d;
        assert LeafKeys(left)[w] == d.key;
        assert d.key in LeafKeys(left);
      }
    } else {
      SearchFindsCell(LeafCells(right), d);
      MaxKeyIsLargest(left);
      assert m < d.key by {
        assert d in LeafCells(right);
        var w :| 0 <= w < |LeafCells(right)| && LeafCells(right)[w] == d;
        assert LeafKeys(right)[w] == d.key;
        assert m in LeafKeys(left) && d.key in LeafKeys(right);
      }
    }
  }

  /**
   * A root split keeps the tree searchable: when a strictly ordered full root
   * leaf takes a new key at its search position and is split under a new root,
   * the pages form a tree of one internal level whose keys are in order, and
   * the search from the root finds every cell that was in the leaf and the new
   * one.
   */
  lemma {:induction false} RootSplitKeepsSearch(store: seq<seq<byte>>, rootNo: nat, leftNo: nat, rightNo: nat,
                                                before: seq<byte>, c: Cell)
    requires LeafFits(before) && NodeTypeOf(before) == NODE_LEAF && LeafNumCells(before) == LEAF_NODE_MAX_CELLS
    requires StrictlyAscending(LeafKeys(before)) && c.key !in LeafKeys(before)
    requires rootNo < |store| && leftNo < |store| && rightNo < |store|
    requires SplitLeaves(before, CountLess(LeafKeys(before), c.key), c, store[leftNo], store[rightNo], rightNo)
    requires NewRoot(store[rootNo], store[leftNo], leftNo, rightNo)
    ensures HeightBounded(store, rootNo, 1) && SearchOrdered(store, rootNo, 1)
    ensures forall d :: d == c || d in LeafCells(before) ==>
              var cursor := TreeFind(store, rootNo, d.key, 1);
              cursor.cellNo < LeafNumCells(store[cursor.pageNo]) && LeafCells(store[cursor.pageNo])[cursor.cellNo] == d
  {
    var cellNo := CountLess(LeafKeys(before), c.key);
    var all := SplitAll(before, cellNo, c);
    var left, right := store[leftNo], store[rightNo];
    InsertAtPositionKeepsOrder(LeafCells(before), c);
    SplitHalvesOrdered(before, cellNo, c, left, right, rightNo);
    NewRootIsTree(store, rootNo, leftNo, rightNo);
    forall d | d == c || d in LeafCells(before)
      ensures var cursor := TreeFind(store, rootNo, d.key, 1);
              cursor.cellNo < LeafNumCells(store[cursor.pageNo]) && LeafCells(store[cursor.pageNo])[cursor.cellNo] == d
    {
      InsertAtHolds(LeafCells(before), cellNo, c, d);
      assert d in LeafCells(left) + LeafCells(right);
      NewRootFinds(store, rootNo, leftNo, rightNo, d);
    }
  }

}
