/**
 * In-place writes to a page buffer: the byte copy the engine does with memcpy,
 * the field setters, and the initialization of a page as an empty node.
 */
module Node {
  import opened Layout

  /** Writes the bytes b into a at [off, off + |b|). */
  method WriteBytes(a: array<byte>, off: nat, b: seq<byte>)
    requires off + |b| <= a.Length
    modifies a
    ensures a[..] == Overwrite(old(a[..]), off, b)
  {
    forall k | off <= k < off + |b| {
      a[k] := b[k - off];
    }
    assert forall k :: 0 <= k < a.Length ==> a[..][k] == Overwrite(old(a[..]), off, b)[k];
  }

  /** memcpy of n bytes from src at srcOff to dst at dstOff; all bytes are read before any is written. */
  method MemCopy(dst: array<byte>, dstOff: nat, src: array<byte>, srcOff: nat, n: nat)
    requires dstOff + n <= dst.Length && srcOff + n <= src.Length
    modifies dst
    ensures dst[..] == Overwrite(old(dst[..]), dstOff, old(src[..])[srcOff..srcOff + n])
  {
    var bytes := src[srcOff..srcOff + n];
    WriteBytes(dst, dstOff, bytes);
  }

  /** Stores the 32-bit value v in the field at off. */
  method SetU32(a: array<byte>, off: nat, v: nat)
    requires off + 4 <= a.Length && v < U32_LIMIT
    modifies a
    ensures a[..] == Overwrite(old(a[..]), off, EncodeU32(v))
    ensures ReadU32(a[..], off) == v
  {
    WriteBytes(a, off, EncodeU32(v));
    ReadWrittenU32(old(a[..]), off, v);
  }

  /** set_node_type */
  method SetNodeType(a: array<byte>, nodeType: byte)
    requires a.Length == PAGE_SIZE
    modifies a
    ensures a[..] == Overwrite(old(a[..]), NODE_TYPE_OFFSET, [nodeType])
    ensures NodeTypeOf(a[..]) == nodeType
  {
    WriteBytes(a, NODE_TYPE_OFFSET, [nodeType]);
  }

  /** set_node_root: the flag is stored as the byte 1 or 0. */
  method SetNodeRoot(a: array<byte>, isRoot: bool)
    requires a.Length == PAGE_SIZE
    modifies a
    ensures a[..] == Overwrite(old(a[..]), IS_ROOT_OFFSET, [if isRoot then 1 else 0])
    ensures IsNodeRoot(a[..]) == isRoot
  {
    WriteBytes(a, IS_ROOT_OFFSET, [if isRoot then 1 else 0]);
  }

  /**
   * initialize_leaf_node: tags the page as a non-root leaf with no cells and no
   * next leaf, leaving the parent pointer and the cell bytes as they were.
   */
  method InitializeLeafNode(a: array<byte>)
    requires a.Length == PAGE_SIZE
    modifies a
    ensures NodeTypeOf(a[..]) == NODE_LEAF && !IsNodeRoot(a[..])
    ensures LeafNumCells(a[..]) == 0 && LeafNextLeaf(a[..]) == 0
    ensures forall k :: PARENT_POINTER_OFFSET <= k < LEAF_NODE_NUM_CELLS_OFFSET ==> a[k] == old(a[k])
    ensures forall k :: LEAF_NODE_HEADER_SIZE <= k < PAGE_SIZE ==> a[k] == old(a[k])
  {
    SetNodeType(a, NODE_LEAF);
    SetNodeRoot(a, false);
    SetU32(a, LEAF_NODE_NUM_CELLS_OFFSET, 0);
    ghost var afterCount := a[..];
    SetU32(a, LEAF_NODE_NEXT_LEAF_OFFSET, 0);
    ReadU32Frame(afterCount, a[..], LEAF_NODE_NUM_CELLS_OFFSET);
  }

  /**
   * initialize_internal_node: tags the page as a non-root internal node with no
   * keys; the right child and the cell bytes keep what they held.
   */
  method InitializeInternalNode(a: array<byte>)
    requires a.Length == PAGE_SIZE
    modifies a
    ensures NodeTypeOf(a[..]) == NODE_INTERNAL && !IsNodeRoot(a[..])
    ensures InternalNumKeys(a[..]) == 0
    ensures forall k :: PARENT_POINTER_OFFSET <= k < INTERNAL_NODE_NUM_KEYS_OFFSET ==> a[k] == old(a[k])
    ensures forall k :: INTERNAL_NODE_RIGHT_CHILD_OFFSET <= k < PAGE_SIZE ==> a[k] == old(a[k])
  {
    SetNodeType(a, NODE_INTERNAL);
    SetNodeRoot(a, false);
    SetU32(a, INTERNAL_NODE_NUM_KEYS_OFFSET, 0);
  }
}
