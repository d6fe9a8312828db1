/** Where bitmaps, inode tables and data blocks of each group lie on disk (`src/block.cpp`, `src/filesystem.cpp`). */
module Layout {
  import opened Bytes
  import opened Groups

  const INODE_TABLE_BLOCKS: nat := 1024
  const GROUP_BYTES: nat := 138_420_224          // MAX_BLOCK_GROUP_SIZE

  datatype Place =
    | Super
    | InodeBitmap(g: nat)
    | BlockBitmap(g: nat)
    | InodeTable(g: nat, t: nat)
    | DataBlock(g: nat, d: nat)

  predicate Exists(p: Place, groups: nat) {
    match p
    case Super => true
    case InodeBitmap(g) => g < groups
    case BlockBitmap(g) => g < groups
    case InodeTable(g, t) => g < groups && t < INODE_TABLE_BLOCKS
    case DataBlock(g, d) => g < groups && d < PER_GROUP
  }

  /** `bg_inode_bitmap` of `alloc_block_group`, a 32-bit field. */
  function InodeBitmapField(g: nat): Word {
    (g * GROUP_BYTES + BLOCK_SIZE) % TWO_32
  }

  function BlockBitmapField(g: nat): Word {
    (InodeBitmapField(g) + BLOCK_SIZE) % TWO_32
  }

  /** Byte offset on disk; table and data offsets are counted from the block bitmap. */
  function Offset(p: Place): nat {
    match p
    case Super => 0
    case InodeBitmap(g) => InodeBitmapField(g)
    case BlockBitmap(g) => BlockBitmapField(g)
    case InodeTable(g, t) => BlockBitmapField(g) + (t + 1) * BLOCK_SIZE
    case DataBlock(g, d) => BlockBitmapField(g) + INODE_TABLE_BLOCKS * BLOCK_SIZE + d * BLOCK_SIZE
  }

  /** The descriptor fields hold the true offsets exactly for groups 0..31. */
  lemma NoWrap(g: nat)
    ensures InodeBitmapField(g) == g * GROUP_BYTES + BLOCK_SIZE
              && BlockBitmapField(g) == g * GROUP_BYTES + 2 * BLOCK_SIZE
            <==> g < 32
  {
    if g >= 32 {
      assert g * GROUP_BYTES >= 32 * GROUP_BYTES;
    }
  }

  /** The order of the places: inode bitmap, block bitmap, inode table, and the data over its last block. */
  lemma GroupOrder(g: nat, t: nat, d: nat)
    requires g < 32
    ensures Offset(Super) == 0 && Offset(InodeBitmap(0)) == BLOCK_SIZE
    ensures Offset(BlockBitmap(g)) == Offset(InodeBitmap(g)) + BLOCK_SIZE
    ensures Offset(InodeTable(g, 0)) == Offset(BlockBitmap(g)) + BLOCK_SIZE
    ensures Offset(InodeTable(g, t + 1)) == Offset(InodeTable(g, t)) + BLOCK_SIZE
    ensures Offset(DataBlock(g, 0)) == Offset(InodeTable(g, INODE_TABLE_BLOCKS - 1))
    ensures Offset(DataBlock(g, d + 1)) == Offset(DataBlock(g, d)) + BLOCK_SIZE
    ensures g > 0 ==> Offset(InodeBitmap(g)) == Offset(InodeBitmap(g - 1)) + GROUP_BYTES
  {
    NoWrap(g);
    if g > 0 {
      NoWrap(g - 1);
    }
  }

  /** Index of a place in blocks of the disk. */
  function BlockNumber(p: Place): nat {
    match p
    case Super => 0
    case InodeBitmap(g) => g * TOTAL_BLOCKS_PER_GROUP + 1
    case BlockBitmap(g) => g * TOTAL_BLOCKS_PER_GROUP + 2
    case InodeTable(g, t) => g * TOTAL_BLOCKS_PER_GROUP + 3 + t
    case DataBlock(g, d) => g * TOTAL_BLOCKS_PER_GROUP + 2 + INODE_TABLE_BLOCKS + d
  }

  lemma OffsetIsBlock(p: Place)
    requires Exists(p, 32)
    ensures Offset(p) == BLOCK_SIZE * BlockNumber(p)
  {
    if !p.Super? {
      NoWrap(p.g);
    }
  }

  /**
   * Two places of a volume of at most 32 groups overlap only as the last table block and the first data
   * block of one group.
   */
  lemma OnlyOverlap(p: Place, q: Place)
    requires Exists(p, 32) && Exists(q, 32) && p != q
    ensures Offset(p) == Offset(q) <==>
              exists g :: {p, q} == {InodeTable(g, INODE_TABLE_BLOCKS - 1), DataBlock(g, 0)}
  {
    OffsetIsBlock(p);
    OffsetIsBlock(q);
    if Offset(p) == Offset(q) {
      SameBlock(p, q);
    } else {
      forall g | {p, q} == {InodeTable(g, INODE_TABLE_BLOCKS - 1), DataBlock(g, 0)} ensures false {
        TablePair(p, q, g);
      }
    }
  }

  lemma TablePair(p: Place, q: Place, g: nat)
    requires {p, q} == {InodeTable(g, INODE_TABLE_BLOCKS - 1), DataBlock(g, 0)}
    ensures BlockNumber(p) == BlockNumber(q)
  {
    assert p in {p, q} && q in {p, q};
    assert InodeTable(g, INODE_TABLE_BLOCKS - 1) in {p, q} && DataBlock(g, 0) in {p, q};
  }

  /** Position inside the group, counted from the inode bitmap. */
  function Within(p: Place): nat
    requires !p.Super?
  {
    match p
    case InodeBitmap(_) => 0
    case BlockBitmap(_) => 1
    case InodeTable(_, t) => 2 + t
    case DataBlock(_, d) => 1 + INODE_TABLE_BLOCKS + d
  }

  lemma SameBlock(p: Place, q: Place)
    requires Exists(p, 32) && Exists(q, 32) && p != q && BlockNumber(p) == BlockNumber(q)
    ensures exists g :: {p, q} == {InodeTable(g, INODE_TABLE_BLOCKS - 1), DataBlock(g, 0)}
  {
    assert !p.Super? && !q.Super?;
    assert Within(p) < TOTAL_BLOCKS_PER_GROUP && Within(q) < TOTAL_BLOCKS_PER_GROUP;
    assert TOTAL_BLOCKS_PER_GROUP * p.g + Within(p) == TOTAL_BLOCKS_PER_GROUP * q.g + Within(q);
    assert p.g == q.g;
    assert {p, q} == {InodeTable(p.g, INODE_TABLE_BLOCKS - 1), DataBlock(p.g, 0)};
  }

  /** The pair that does overlap. */
  lemma TableMeetsData(g: nat)
    ensures Offset(InodeTable(g, INODE_TABLE_BLOCKS - 1)) == Offset(DataBlock(g, 0))
  {
  }
}
