/**
 * Page layout codec of the B+tree: the fixed byte offsets of the common node
 * header, the leaf header and cells, and the internal header and cells, and the
 * field accessors over a page's bytes.  Integers are 4-byte little-endian.
 */
module Layout {

  /** One byte of a page buffer. */
  newtype byte = x: int | 0 <= x < 256

  /** Every on-page integer is an unsigned 32-bit value. */
  const U32_LIMIT: nat := 0x1_0000_0000

  /** Size of a page and of a serialized row (both come from the table header). */
  const PAGE_SIZE: nat := 4096
  const ROW_SIZE: nat := 293

  /** The node kind tags stored in a page's first byte. */
  const NODE_INTERNAL: byte := 0
  const NODE_LEAF: byte := 1

  // Common node header
  const NODE_TYPE_SIZE: nat := 1
  const NODE_TYPE_OFFSET: nat := 0
  const IS_ROOT_SIZE: nat := 1
  const IS_ROOT_OFFSET: nat := NODE_TYPE_SIZE
  const PARENT_POINTER_SIZE: nat := 4
  const PARENT_POINTER_OFFSET: nat := IS_ROOT_OFFSET + IS_ROOT_SIZE
  const COMMON_NODE_HEADER_SIZE: nat := NODE_TYPE_SIZE + IS_ROOT_SIZE + PARENT_POINTER_SIZE

  // Leaf node header
  const LEAF_NODE_NUM_CELLS_SIZE: nat := 4
  const LEAF_NODE_NUM_CELLS_OFFSET: nat := COMMON_NODE_HEADER_SIZE
  const LEAF_NODE_NEXT_LEAF_SIZE: nat := 4
  const LEAF_NODE_NEXT_LEAF_OFFSET: nat := LEAF_NODE_NUM_CELLS_OFFSET + LEAF_NODE_NUM_CELLS_SIZE
  const LEAF_NODE_HEADER_SIZE: nat := COMMON_NODE_HEADER_SIZE + LEAF_NODE_NUM_CELLS_SIZE + LEAF_NODE_NEXT_LEAF_SIZE

  // Leaf node body: an array of (key, row) cells
  const LEAF_NODE_KEY_SIZE: nat := 4
  const LEAF_NODE_KEY_OFFSET: nat := 0
  const LEAF_NODE_VALUE_SIZE: nat := ROW_SIZE
  const LEAF_NODE_VALUE_OFFSET: nat := LEAF_NODE_KEY_OFFSET + LEAF_NODE_KEY_SIZE
  const LEAF_NODE_CELL_SIZE: nat := LEAF_NODE_KEY_SIZE + LEAF_NODE_VALUE_SIZE
  const LEAF_NODE_SPACE_FOR_CELLS: nat := PAGE_SIZE - LEAF_NODE_HEADER_SIZE
  const LEAF_NODE_MAX_CELLS: nat := LEAF_NODE_SPACE_FOR_CELLS / LEAF_NODE_CELL_SIZE

  /** A leaf overflowing at MAX + 1 cells keeps the larger half on the left. */
  const LEAF_NODE_RIGHT_SPLIT_COUNT: nat := (LEAF_NODE_MAX_CELLS + 1) / 2
  const LEAF_NODE_LEFT_SPLIT_COUNT: nat := (LEAF_NODE_MAX_CELLS + 1) - LEAF_NODE_RIGHT_SPLIT_COUNT

  // Internal node header and body: an array of (child, key) cells
  const INTERNAL_NODE_NUM_KEYS_SIZE: nat := 4
  const INTERNAL_NODE_NUM_KEYS_OFFSET: nat := COMMON_NODE_HEADER_SIZE
  const INTERNAL_NODE_RIGHT_CHILD_SIZE: nat := 4
  const INTERNAL_NODE_RIGHT_CHILD_OFFSET: nat := INTERNAL_NODE_NUM_KEYS_OFFSET + INTERNAL_NODE_NUM_KEYS_SIZE
  const INTERNAL_NODE_HEADER_SIZE: nat := COMMON_NODE_HEADER_SIZE + INTERNAL_NODE_NUM_KEYS_SIZE + INTERNAL_NODE_RIGHT_CHILD_SIZE
  const INTERNAL_NODE_KEY_SIZE: nat := 4
  const INTERNAL_NODE_CHILD_SIZE: nat := 4
  const INTERNAL_NODE_CELL_SIZE: nat := INTERNAL_NODE_CHILD_SIZE + INTERNAL_NODE_KEY_SIZE

  /** The most internal cells whose bytes fit in one page (a bound of this model). */
  const INTERNAL_NODE_CELL_CAPACITY: nat := (PAGE_SIZE - INTERNAL_NODE_HEADER_SIZE) / INTERNAL_NODE_CELL_SIZE

  /** Split counts for a leaf whose capacity is maxCells cells. */
  function RightSplitCount(maxCells: nat): nat { (maxCells + 1) / 2 }
  function LeftSplitCount(maxCells: nat): nat { (maxCells + 1) - RightSplitCount(maxCells) }

  /** The two halves hold all MAX + 1 cells; an odd cell out goes to the left. */
  lemma SplitCountsBalanced(maxCells: nat)
    ensures LeftSplitCount(maxCells) + RightSplitCount(maxCells) == maxCells + 1
    ensures LeftSplitCount(maxCells) == RightSplitCount(maxCells)
         || LeftSplitCount(maxCells) == RightSplitCount(maxCells) + 1
    ensures (LeftSplitCount(maxCells) == RightSplitCount(maxCells) + 1) <==> (maxCells + 1) % 2 == 1
  {
  }

  /**
   * The leaf constants are the split rule applied to this page size, and the
   * cells fit: 13 cells of 297 bytes per leaf, split 7 and 7.
   */
  lemma LeafLayoutFacts()
    ensures LEAF_NODE_RIGHT_SPLIT_COUNT == RightSplitCount(LEAF_NODE_MAX_CELLS)
    ensures LEAF_NODE_LEFT_SPLIT_COUNT == LeftSplitCount(LEAF_NODE_MAX_CELLS)
    ensures LEAF_NODE_MAX_CELLS * LEAF_NODE_CELL_SIZE <= PAGE_SIZE - LEAF_NODE_HEADER_SIZE
    ensures (LEAF_NODE_MAX_CELLS + 1) * LEAF_NODE_CELL_SIZE > PAGE_SIZE - LEAF_NODE_HEADER_SIZE
    ensures 1 <= LEAF_NODE_RIGHT_SPLIT_COUNT <= LEAF_NODE_LEFT_SPLIT_COUNT <= LEAF_NODE_MAX_CELLS
    ensures INTERNAL_NODE_HEADER_SIZE + INTERNAL_NODE_CELL_CAPACITY * INTERNAL_NODE_CELL_SIZE <= PAGE_SIZE
    ensures LEAF_NODE_MAX_CELLS == 13 && LEAF_NODE_LEFT_SPLIT_COUNT == 7 && LEAF_NODE_RIGHT_SPLIT_COUNT == 7
  {
    assert LEAF_NODE_CELL_SIZE == 297 && LEAF_NODE_SPACE_FOR_CELLS == 4082;
    assert LEAF_NODE_MAX_CELLS == 13;
    assert INTERNAL_NODE_CELL_CAPACITY == 510;
  }

  /** The index inside the destination leaf of logical cell i during a split. */
  lemma SplitDestinationInRange(i: nat)
    requires i <= LEAF_NODE_MAX_CELLS
    ensures i >= LEAF_NODE_LEFT_SPLIT_COUNT ==>
              i % LEAF_NODE_LEFT_SPLIT_COUNT == i - LEAF_NODE_LEFT_SPLIT_COUNT < LEAF_NODE_RIGHT_SPLIT_COUNT
    ensures i < LEAF_NODE_LEFT_SPLIT_COUNT ==> i % LEAF_NODE_LEFT_SPLIT_COUNT == i
  {
  }

  // ---------------------------------------------------------------------------
  // Bytes and 32-bit integers

  /** s with the bytes at [off, off + |b|) replaced by b. */
  function Overwrite(s: seq<byte>, off: nat, b: seq<byte>): (r: seq<byte>)
    requires off + |b| <= |s|
    ensures |r| == |s|
    ensures forall k {:trigger r[k]} :: 0 <= k < |s| ==> r[k] == if off <= k < off + |b| then b[k - off] else s[k]
  {
    s[..off] + b + s[off + |b|..]
  }

  /** Two adjacent writes are one write of the concatenated bytes, in either order. */
  lemma OverwriteAdjacent(s: seq<byte>, off: nat, a: seq<byte>, b: seq<byte>)
    requires off + |a| + |b| <= |s|
    ensures Overwrite(Overwrite(s, off, a), off + |a|, b) == Overwrite(s, off, a + b)
    ensures Overwrite(Overwrite(s, off + |a|, b), off, a) == Overwrite(s, off, a + b)
  {
    var t1 := Overwrite(Overwrite(s, off, a), off + |a|, b);
    var t2 := Overwrite(Overwrite(s, off + |a|, b), off, a);
    var u := Overwrite(s, off, a + b);
    assert forall k :: 0 <= k < |s| ==> t1[k] == u[k];
    assert forall k :: 0 <= k < |s| ==> t2[k] == u[k];
  }

  function EncodeU32(v: nat): (b: seq<byte>)
    requires v < U32_LIMIT
    ensures |b| == 4
  {
    [(v % 256) as byte, (v / 256 % 256) as byte, (v / 65536 % 256) as byte, (v / 16777216) as byte]
  }

  function DecodeU32(b: seq<byte>): (v: nat)
    requires |b| == 4
    ensures v < U32_LIMIT
  {
    b[0] as nat + 256 * b[1] as nat + 65536 * b[2] as nat + 16777216 * b[3] as nat
  }

  lemma DivMod256(x: int, q: int, r: int)
    requires 0 <= r < 256 && x == q * 256 + r
    ensures x / 256 == q && x % 256 == r
  {
  }

  lemma DivMod65536(x: int, q: int, r: int)
    requires 0 <= r < 65536 && x == q * 65536 + r
    ensures x / 65536 == q && x % 65536 == r
  {
  }

  lemma DivMod16777216(x: int, q: int, r: int)
    requires 0 <= r < 16777216 && x == q * 16777216 + r
    ensures x / 16777216 == q && x % 16777216 == r
  {
  }

  /** Decoding the four bytes of a value gives the value back. */
  lemma DecodeEncodeU32(v: nat)
    requires v < U32_LIMIT
    ensures DecodeU32(EncodeU32(v)) == v
  {
    var q1, b0 := v / 256, v % 256;
    var q2, b1 := q1 / 256, q1 % 256;
    var q3, b2 := q2 / 256, q2 % 256;
    DivMod65536(v, q2, b1 * 256 + b0);
    DivMod16777216(v, q3, b2 * 65536 + b1 * 256 + b0);
  }

  /** Encoding the value of four bytes gives the bytes back. */
  lemma EncodeDecodeU32(b: seq<byte>)
    requires |b| == 4
    ensures EncodeU32(DecodeU32(b)) == b
  {
    var b0, b1, b2, b3 := b[0] as int, b[1] as int, b[2] as int, b[3] as int;
    var v := DecodeU32(b);
    DivMod256(v, b1 + 256 * b2 + 65536 * b3, b0);
    DivMod256(b1 + 256 * b2 + 65536 * b3, b2 + 256 * b3, b1);
    DivMod65536(v, b2 + 256 * b3, b0 + 256 * b1);
    DivMod256(b2 + 256 * b3, b3, b2);
    DivMod16777216(v, b3, b0 + 256 * b1 + 65536 * b2);
    var r := EncodeU32(v);
    assert r[0] == b[0] && r[1] == b[1] && r[2] == b[2] && r[3] == b[3];
  }

  /** The unsigned 32-bit field stored at [off, off + 4). */
  function ReadU32(s: seq<byte>, off: nat): (v: nat)
    requires off + 4 <= |s|
    ensures v < U32_LIMIT
  {
    DecodeU32(s[off..off + 4])
  }

  /** A field reads back what was written to it. */
  lemma ReadWrittenU32(s: seq<byte>, off: nat, v: nat)
    requires off + 4 <= |s| && v < U32_LIMIT
    ensures ReadU32(Overwrite(s, off, EncodeU32(v)), off) == v
  {
    var t := Overwrite(s, off, EncodeU32(v));
    assert t[off..off + 4] == EncodeU32(v);
    DecodeEncodeU32(v);
  }

  /** A field depends on its four bytes only. */
  lemma ReadU32Frame(s: seq<byte>, t: seq<byte>, off: nat)
    requires off + 4 <= |s| && off + 4 <= |t|
    requires forall k :: off <= k < off + 4 ==> s[k] == t[k]
    ensures ReadU32(s, off) == ReadU32(t, off)
  {
    assert s[off..off + 4] == t[off..off + 4];
  }

  // ---------------------------------------------------------------------------
  // Common node header

  /** get_node_type: the tag is the one-byte field at NODE_TYPE_OFFSET. */
  function NodeTypeOf(s: seq<byte>): (nodeType: byte)
    requires |s| == PAGE_SIZE
    ensures s[NODE_TYPE_OFFSET..NODE_TYPE_OFFSET + NODE_TYPE_SIZE] == [nodeType]
  {
    s[NODE_TYPE_OFFSET]
  }

  /**
   * is_node_root: any non-zero flag byte reads as true, so on a byte that
   * set_node_root wrote (0 or 1) the byte is the encoding of the flag read.
   */
  function IsNodeRoot(s: seq<byte>): (isRoot: bool)
    requires |s| == PAGE_SIZE
    ensures s[IS_ROOT_OFFSET] <= 1 ==> s[IS_ROOT_OFFSET..IS_ROOT_OFFSET + IS_ROOT_SIZE] == [if isRoot then 1 else 0]
  {
    s[IS_ROOT_OFFSET] != 0
  }

  function ParentPointer(s: seq<byte>): nat
    requires |s| == PAGE_SIZE
  {
    ReadU32(s, PARENT_POINTER_OFFSET)
  }

  // ---------------------------------------------------------------------------
  // Leaf nodes

  /** A cell of a leaf: a key and the serialized row stored with it. */
  datatype Cell = Cell(key: nat, value: seq<byte>)

  predicate WellSizedCell(c: Cell) {
    c.key < U32_LIMIT && |c.value| == ROW_SIZE
  }

  /** leaf_node_num_cells: the unsigned 32-bit cell count of a leaf. */
  function LeafNumCells(s: seq<byte>): (v: nat)
    requires |s| == PAGE_SIZE
    ensures v < U32_LIMIT
  {
    ReadU32(s, LEAF_NODE_NUM_CELLS_OFFSET)
  }

  /** leaf_node_next_leaf: the field's four bytes are the value, little-endian. */
  function LeafNextLeaf(s: seq<byte>): (v: nat)
    requires |s| == PAGE_SIZE
    ensures v < U32_LIMIT && EncodeU32(v) == s[LEAF_NODE_NEXT_LEAF_OFFSET..LEAF_NODE_NEXT_LEAF_OFFSET + 4]
  {
    EncodeDecodeU32(s[LEAF_NODE_NEXT_LEAF_OFFSET..LEAF_NODE_NEXT_LEAF_OFFSET + 4]);
    ReadU32(s, LEAF_NODE_NEXT_LEAF_OFFSET)
  }

  /** Byte offset of leaf cell cellNo. */
  function LeafCellOffset(cellNo: nat): nat {
    LEAF_NODE_HEADER_SIZE + cellNo * LEAF_NODE_CELL_SIZE
  }

  /** Cells are consecutive, do not overlap, and cell MAX - 1 ends inside the page. */
  lemma LeafCellOffsets(i: nat, j: nat)
    ensures i < j ==> LeafCellOffset(i) + LEAF_NODE_CELL_SIZE <= LeafCellOffset(j)
    ensures LeafCellOffset(i + 1) == LeafCellOffset(i) + LEAF_NODE_CELL_SIZE
    ensures i <= LEAF_NODE_MAX_CELLS ==> LeafCellOffset(i) <= PAGE_SIZE
  {
  }

  /** leaf_node_key: the cell's first four bytes are the key, little-endian. */
  function LeafKey(s: seq<byte>, cellNo: nat): (key: nat)
    requires |s| == PAGE_SIZE && cellNo < LEAF_NODE_MAX_CELLS
    ensures key < U32_LIMIT
    ensures EncodeU32(key) == s[LeafCellOffset(cellNo) + LEAF_NODE_KEY_OFFSET..LeafCellOffset(cellNo) + LEAF_NODE_KEY_OFFSET + 4]
  {
    EncodeDecodeU32(s[LeafCellOffset(cellNo) + LEAF_NODE_KEY_OFFSET..LeafCellOffset(cellNo) + LEAF_NODE_KEY_OFFSET + 4]);
    ReadU32(s, LeafCellOffset(cellNo) + LEAF_NODE_KEY_OFFSET)
  }

  /** leaf_node_value: the ROW_SIZE bytes after the cell's key, inside the page. */
  function LeafValue(s: seq<byte>, cellNo: nat): (row: seq<byte>)
    requires |s| == PAGE_SIZE && cellNo < LEAF_NODE_MAX_CELLS
    ensures |row| == ROW_SIZE
  {
    var off := LeafCellOffset(cellNo) + LEAF_NODE_VALUE_OFFSET;
    s[off..off + LEAF_NODE_VALUE_SIZE]
  }

  function LeafCellAt(s: seq<byte>, cellNo: nat): Cell
    requires |s| == PAGE_SIZE && cellNo < LEAF_NODE_MAX_CELLS
  {
    Cell(LeafKey(s, cellNo), LeafValue(s, cellNo))
  }

  /** The on-page encoding of a cell: its key, then its row. */
  function EncodeCell(c: Cell): (b: seq<byte>)
    requires WellSizedCell(c)
    ensures |b| == LEAF_NODE_CELL_SIZE
  {
    EncodeU32(c.key) + c.value
  }

  /** A cell written at cell slot cellNo reads back as that cell. */
  lemma ReadWrittenCell(s: seq<byte>, cellNo: nat, c: Cell)
    requires |s| == PAGE_SIZE && cellNo < LEAF_NODE_MAX_CELLS && WellSizedCell(c)
    ensures LeafCellAt(Overwrite(s, LeafCellOffset(cellNo), EncodeCell(c)), cellNo) == c
  {
    var off := LeafCellOffset(cellNo);
    var t := Overwrite(s, off, EncodeCell(c));
    assert t[off..off + 4] == EncodeU32(c.key);
    DecodeEncodeU32(c.key);
    assert t[off + 4..off + 4 + ROW_SIZE] == c.value;
  }

  /**
   * A cell depends on its own bytes only: if t's bytes at slot j are s's bytes at
   * slot i, cell j of t is cell i of s.
   */
  lemma LeafCellMoved(s: seq<byte>, i: nat, t: seq<byte>, j: nat)
    requires |s| == PAGE_SIZE && |t| == PAGE_SIZE
    requires i < LEAF_NODE_MAX_CELLS && j < LEAF_NODE_MAX_CELLS
    requires forall k :: LeafCellOffset(j) <= k < LeafCellOffset(j) + LEAF_NODE_CELL_SIZE ==>
               t[k] == s[k - LeafCellOffset(j) + LeafCellOffset(i)]
    ensures LeafCellAt(t, j) == LeafCellAt(s, i)
  {
    var oi, oj := LeafCellOffset(i), LeafCellOffset(j);
    var tk, sk := t[oj..oj + 4], s[oi..oi + 4];
    forall m | 0 <= m < 4 ensures tk[m] == sk[m] {
      assert t[oj + m] == s[oj + m - oj + oi];
    }
    assert tk == sk;
    var tv, sv := t[oj + 4..oj + 4 + ROW_SIZE], s[oi + 4..oi + 4 + ROW_SIZE];
    forall m | 0 <= m < ROW_SIZE ensures tv[m] == sv[m] {
      assert t[oj + 4 + m] == s[oj + 4 + m - oj + oi];
    }
    assert tv == sv;
  }

  /** Overwriting a cell slot with the bytes of a cell: that slot holds it, the other slots keep theirs. */
  lemma OverwriteLeafCell(s: seq<byte>, cellNo: nat, c: Cell)
    requires |s| == PAGE_SIZE && cellNo < LEAF_NODE_MAX_CELLS && WellSizedCell(c)
    ensures LeafCellAt(Overwrite(s, LeafCellOffset(cellNo), EncodeCell(c)), cellNo) == c
    ensures forall e :: 0 <= e < LEAF_NODE_MAX_CELLS && e != cellNo ==>
              LeafCellAt(Overwrite(s, LeafCellOffset(cellNo), EncodeCell(c)), e) == LeafCellAt(s, e)
  {
    ReadWrittenCell(s, cellNo, c);
    var t := Overwrite(s, LeafCellOffset(cellNo), EncodeCell(c));
    forall e | 0 <= e < LEAF_NODE_MAX_CELLS && e != cellNo
      ensures LeafCellAt(t, e) == LeafCellAt(s, e)
    {
      LeafCellOffsets(e, cellNo);
      LeafCellOffsets(cellNo, e);
      LeafCellMoved(s, e, t, e);
    }
  }

  /** memcpy of cell slot `from` of src into cell slot `to` of dst: slot `to` now holds that cell, the others keep theirs. */
  lemma CopyLeafCell(src: seq<byte>, from: nat, dst: seq<byte>, to: nat)
    requires |src| == PAGE_SIZE && |dst| == PAGE_SIZE
    requires from < LEAF_NODE_MAX_CELLS && to < LEAF_NODE_MAX_CELLS
    ensures LeafCellOffset(from) + LEAF_NODE_CELL_SIZE <= PAGE_SIZE
    ensures var t := Overwrite(dst, LeafCellOffset(to), src[LeafCellOffset(from)..LeafCellOffset(from) + LEAF_NODE_CELL_SIZE]);
            LeafCellAt(t, to) == LeafCellAt(src, from) &&
            forall e :: 0 <= e < LEAF_NODE_MAX_CELLS && e != to ==> LeafCellAt(t, e) == LeafCellAt(dst, e)
  {
    var t := Overwrite(dst, LeafCellOffset(to), src[LeafCellOffset(from)..LeafCellOffset(from) + LEAF_NODE_CELL_SIZE]);
    LeafCellMoved(src, from, t, to);
    forall e | 0 <= e < LEAF_NODE_MAX_CELLS && e != to
      ensures LeafCellAt(t, e) == LeafCellAt(dst, e)
    {
      LeafCellOffsets(e, to);
      LeafCellOffsets(to, e);
      LeafCellMoved(dst, e, t, e);
    }
  }

  /** A write inside the leaf header leaves every cell as it was. */
  lemma HeaderWriteKeepsCells(s: seq<byte>, off: nat, b: seq<byte>)
    requires |s| == PAGE_SIZE && off + |b| <= LEAF_NODE_HEADER_SIZE
    ensures forall e :: 0 <= e < LEAF_NODE_MAX_CELLS ==> LeafCellAt(Overwrite(s, off, b), e) == LeafCellAt(s, e)
  {
    forall e | 0 <= e < LEAF_NODE_MAX_CELLS
      ensures LeafCellAt(Overwrite(s, off, b), e) == LeafCellAt(s, e)
    {
      LeafCellMoved(s, e, Overwrite(s, off, b), e);
    }
  }

  /** The cells of a leaf whose count leaves them inside the page. */
  predicate LeafFits(s: seq<byte>) {
    |s| == PAGE_SIZE && LeafNumCells(s) <= LEAF_NODE_MAX_CELLS
  }

  function LeafCells(s: seq<byte>): (cells: seq<Cell>)
    requires LeafFits(s)
    ensures |cells| == LeafNumCells(s)
    ensures forall i :: 0 <= i < |cells| ==> cells[i] == LeafCellAt(s, i)
  {
    seq(LeafNumCells(s), i requires 0 <= i < LeafNumCells(s) => LeafCellAt(s, i))
  }

  // ---------------------------------------------------------------------------
  // Internal nodes

  /** internal_node_child was asked for a child past the right child. */
  datatype Error = ChildIndexOutOfRange(childNo: nat, numKeys: nat)

  datatype Result<T> = Ok(value: T) | Err(error: Error)

  /** internal_node_num_keys: the field's four bytes are the value, little-endian. */
  function InternalNumKeys(s: seq<byte>): (v: nat)
    requires |s| == PAGE_SIZE
    ensures v < U32_LIMIT && EncodeU32(v) == s[INTERNAL_NODE_NUM_KEYS_OFFSET..INTERNAL_NODE_NUM_KEYS_OFFSET + 4]
  {
    EncodeDecodeU32(s[INTERNAL_NODE_NUM_KEYS_OFFSET..INTERNAL_NODE_NUM_KEYS_OFFSET + 4]);
    ReadU32(s, INTERNAL_NODE_NUM_KEYS_OFFSET)
  }

  /** internal_node_right_child: the field's four bytes are the value, little-endian. */
  function InternalRightChild(s: seq<byte>): (v: nat)
    requires |s| == PAGE_SIZE
    ensures v < U32_LIMIT && EncodeU32(v) == s[INTERNAL_NODE_RIGHT_CHILD_OFFSET..INTERNAL_NODE_RIGHT_CHILD_OFFSET + 4]
  {
    EncodeDecodeU32(s[INTERNAL_NODE_RIGHT_CHILD_OFFSET..INTERNAL_NODE_RIGHT_CHILD_OFFSET + 4]);
    ReadU32(s, INTERNAL_NODE_RIGHT_CHILD_OFFSET)
  }

  /** internal_node_cell: cell cellNo starts after the header, and a cell within capacity ends inside the page. */
  function InternalCellOffset(cellNo: nat): (off: nat)
    ensures off >= INTERNAL_NODE_HEADER_SIZE
    ensures cellNo < INTERNAL_NODE_CELL_CAPACITY ==> off + INTERNAL_NODE_CELL_SIZE <= PAGE_SIZE
  {
    INTERNAL_NODE_HEADER_SIZE + cellNo * INTERNAL_NODE_CELL_SIZE
  }

  /** The child page stored in internal cell cellNo: the cell's first four bytes, little-endian. */
  function InternalCellChild(s: seq<byte>, cellNo: nat): (child: nat)
    requires |s| == PAGE_SIZE && cellNo < INTERNAL_NODE_CELL_CAPACITY
    ensures child < U32_LIMIT
    ensures EncodeU32(child) == s[InternalCellOffset(cellNo)..InternalCellOffset(cellNo) + 4]
  {
    EncodeDecodeU32(s[InternalCellOffset(cellNo)..InternalCellOffset(cellNo) + 4]);
    ReadU32(s, InternalCellOffset(cellNo))
  }

  /** The separator key stored in internal cell keyNo. */
  function InternalKey(s: seq<byte>, keyNo: nat): (key: nat)
    requires |s| == PAGE_SIZE && keyNo < INTERNAL_NODE_CELL_CAPACITY
    ensures key < U32_LIMIT
    ensures EncodeU32(key) == s[InternalCellOffset(keyNo) + INTERNAL_NODE_CHILD_SIZE..InternalCellOffset(keyNo) + INTERNAL_NODE_CHILD_SIZE + 4]
  {
    EncodeDecodeU32(s[InternalCellOffset(keyNo) + INTERNAL_NODE_CHILD_SIZE..InternalCellOffset(keyNo) + INTERNAL_NODE_CHILD_SIZE + 4]);
    ReadU32(s, InternalCellOffset(keyNo) + INTERNAL_NODE_CHILD_SIZE)
  }

  predicate InternalFits(s: seq<byte>) {
    |s| == PAGE_SIZE && InternalNumKeys(s) <= INTERNAL_NODE_CELL_CAPACITY
  }

  function InternalKeys(s: seq<byte>): (keys: seq<nat>)
    requires InternalFits(s)
    ensures |keys| == InternalNumKeys(s)
    ensures forall i :: 0 <= i < |keys| ==> keys[i] == InternalKey(s, i)
  {
    seq(InternalNumKeys(s), i requires 0 <= i < InternalNumKeys(s) => InternalKey(s, i))
  }

  /** The K + 1 children of an internal node with K keys: the K cell children, then the right child. */
  function Children(s: seq<byte>): (children: seq<nat>)
    requires InternalFits(s)
    ensures |children| == InternalNumKeys(s) + 1
  {
    seq(InternalNumKeys(s) + 1, i requires 0 <= i <= InternalNumKeys(s) => ChildField(s, i))
  }

  /** Child i of the list of children: a cell child below K, the right child at K. */
  function ChildField(s: seq<byte>, i: nat): nat
    requires InternalFits(s) && i <= InternalNumKeys(s)
  {
    if i < InternalNumKeys(s) then InternalCellChild(s, i) else InternalRightChild(s)
  }

  /**
   * internal_node_child: the offset of the field holding child childNo, which is
   * the right-child field for childNo == K and cell childNo's child field below K;
   * past K there is no such child.
   */
  function InternalChildOffset(s: seq<byte>, childNo: nat): (r: Result<nat>)
    requires InternalFits(s)
    ensures r.Ok? <==> childNo <= InternalNumKeys(s)
    ensures r.Ok? ==> r.value + 4 <= PAGE_SIZE
    ensures r.Err? ==> r.error == ChildIndexOutOfRange(childNo, InternalNumKeys(s))
  {
    var keysCount := InternalNumKeys(s);
    if childNo > keysCount then Err(ChildIndexOutOfRange(childNo, keysCount))
    else if childNo == keysCount then Ok(INTERNAL_NODE_RIGHT_CHILD_OFFSET)
    else Ok(InternalCellOffset(childNo))
  }

  /** The page number read through internal_node_child. */
  function InternalChild(s: seq<byte>, childNo: nat): (r: Result<nat>)
    requires InternalFits(s)
    ensures r.Ok? <==> childNo <= InternalNumKeys(s)
    ensures r.Ok? ==> r.value < U32_LIMIT
    ensures r.Err? ==> r.error == ChildIndexOutOfRange(childNo, InternalNumKeys(s))
  {
    match InternalChildOffset(s, childNo)
    case Ok(off) => Ok(ReadU32(s, off))
    case Err(e) => Err(e)
  }

  /** internal_node_child agrees with the list of children, and fails exactly past its end. */
  lemma InternalChildIsChildrenEntry(s: seq<byte>, childNo: nat)
    requires InternalFits(s)
    ensures InternalChild(s, childNo).Ok? <==> childNo < |Children(s)|
    ensures childNo < |Children(s)| ==> InternalChild(s, childNo).value == Children(s)[childNo]
    ensures childNo == InternalNumKeys(s) ==> InternalChild(s, childNo) == Ok(InternalRightChild(s))
    ensures childNo >= |Children(s)| ==>
              InternalChild(s, childNo) == Err(ChildIndexOutOfRange(childNo, InternalNumKeys(s)))
  {
    if childNo < |Children(s)| {
      assert Children(s)[childNo] == ChildField(s, childNo);
    }
  }

  // ---------------------------------------------------------------------------
  // Whole pages

  /** A page the tree can use: a known kind tag, and a count whose cells fit the page. */
  predicate NodeOk(s: seq<byte>) {
    |s| == PAGE_SIZE &&
    (NodeTypeOf(s) == NODE_LEAF || NodeTypeOf(s) == NODE_INTERNAL) &&
    (NodeTypeOf(s) == NODE_LEAF ==> LeafFits(s)) &&
    (NodeTypeOf(s) == NODE_INTERNAL ==> InternalFits(s))
  }

  /** A page of zero bytes, as the pager hands out for a new page number. */
  function ZeroPage(): (s: seq<byte>)
    ensures |s| == PAGE_SIZE
    ensures forall k :: 0 <= k < PAGE_SIZE ==> s[k] == 0
  {
    seq(PAGE_SIZE, _ => 0)
  }
}
