/** Inodes and the file system object that allocates blocks for them (`src/filesystem.cpp`). */
module Volume {
  import opened Bytes
  import opened BlockTree

  const SECTORS_PER_BLOCK: nat := 8
  const MAX_FILE_BLOCKS: nat := 0x2000_0000

  /** `ext2_inode`: the block pointers, the count of 512-byte sectors and the byte size. */
  class Inode {
    var block: Pointers
    var iBlocks: Word
    var iSize: Word

    constructor ()
      ensures block == seq(15, _ => 0) && iBlocks == 0 && iSize == 0
    {
      block := seq(15, _ => 0);
      iBlocks := 0;
      iSize := 0;
    }

    /** `SuperBlock::num_aligned_blocks(i_blocks)`. */
    function Count(): nat
      reads this
    {
      iBlocks / SECTORS_PER_BLOCK
    }
  }

  class FileSystem {
    /** Contents of every allocated block. */
    var blocks: Store
    /** Blocks marked dirty in the block cache. */
    var dirty: set<Word>
    /** What each block in use is used for; blocks that were leaked need not appear. */
    ghost var owner: map<Word, Owned<Inode>>
    ghost var files: set<Inode>
    /** How many allocations, of blocks or inodes, were refused so far. */
    ghost var refused: nat
    /** How many inodes came from a block group that was made for them. */
    ghost var grouped: nat

    constructor ()
      ensures blocks == map[] && dirty == {} && owner == map[] && files == {} && refused == grouped == 0
      ensures Valid()
    {
      blocks := map[];
      dirty := {};
      owner := map[];
      files := {};
      refused := 0;
      grouped := 0;
    }

    /** All blocks of all files are allocated, and each is used for one position of one file only. */
    ghost predicate Valid()
      reads this`blocks, this`owner, this`dirty, this`files, files
    {
      && owner.Keys <= blocks.Keys && dirty <= blocks.Keys
      && (forall b | b in blocks :: b < VOLUME_BLOCKS)
      && forall f | f in files :: SnapOf(f).Holds(f, LiveSet(f.Count()))
    }

    /** The block numbers of a file in file order. */
    ghost function DataList(f: Inode): seq<Word>
      reads this`blocks, this`owner, f
    {
      ListOf(SnapOf(f), f.Count())
    }

    /** The contents of the blocks of a file in file order. */
    ghost function Contents(f: Inode): seq<Block>
      reads this`blocks, this`owner, f
    {
      ContentOf(SnapOf(f), f.Count())
    }

    /**
     * `alloc_block(block, index)`: hands out any block that is not allocated, zeroed, or is refused.
     * The bitmap allocator picks the index; nothing above it depends on which one.
     */
    method AllocBlock() returns (ok: bool, index: Word)
      modifies this`blocks, this`refused
      ensures ok ==> index !in old(blocks) && index < VOLUME_BLOCKS && blocks == old(blocks)[index := ZeroBlock()]
      ensures !ok ==> blocks == old(blocks)
      ensures refused == old(refused) + if ok then 0 else 1
    {
      ok, index := false, 0;
      if * {
        if i: Word :| i !in blocks && i < VOLUME_BLOCKS {
          ok, index := true, i;
          blocks := blocks[i := ZeroBlock()];
          return;
        }
      }
      refused := refused + 1;
    }

    /** The allocated blocks that nobody uses. */
    ghost function Loose(): set<Word>
      reads this`blocks, this`owner
    {
      blocks.Keys - owner.Keys
    }

    ghost function Cache(): Cached
      reads this`blocks, this`dirty
    {
      Cached(blocks, dirty)
    }

    ghost function SnapOf(f: Inode): Snap<Inode>
      reads this`blocks, this`owner, f
    {
      Snap(f.block, blocks, owner)
    }

    /** `alloc_block` in the middle of growing a file: the new block is not yet linked. */
    method Reserve(inode: Inode, ghost n: nat, ghost g0: Snap<Inode>, ghost att: iset<Pos>) returns (ok: bool, b: Word)
      requires Progress(inode, n, g0, SnapOf(inode), att)
      modifies this`blocks, this`refused
      ensures refused == old(refused) + if ok then 0 else 1
      ensures Progress(inode, n, g0, SnapOf(inode), att)
      ensures forall q | q in att :: SnapOf(inode).At(q) == old(SnapOf(inode)).At(q)
      ensures ok ==> b in blocks && b !in old(blocks) && b !in owner && blocks[b] == ZeroBlock()
      ensures Untouched(old(blocks), owner, blocks, owner, {})
      ensures Marks(old(Cache()), Cache(), {b})
      ensures Loose() == old(Loose()) + (if ok then {b} else {}) && (ok ==> b !in old(Loose()))
    {
      ghost var g := SnapOf(inode);
      ok, b := AllocBlock();
      if ok {
        ProgressAlloc(inode, n, g0, g, att, b, ZeroBlock());
      }
    }

    /** `inode->i_block[slot] = b`. */
    method LinkRoot(inode: Inode, slot: nat, b: Word,
                    ghost n: nat, ghost g0: Snap<Inode>, ghost att: iset<Pos>, ghost p: Pos)
      requires Progress(inode, n, g0, SnapOf(inode), att)
      requires IsRoot(p) && Within(p) && p !in att && RootSlot(p) == slot && b in blocks && b !in owner
      modifies this`owner, inode`block
      ensures Progress(inode, n, g0, SnapOf(inode), att + iset{p})
      ensures SnapOf(inode).At(p) == b && inode.block[slot] == b
      ensures forall q | q in att :: SnapOf(inode).At(q) == old(SnapOf(inode)).At(q)
      ensures Untouched(blocks, old(owner), blocks, owner, {b})
      ensures inode.block == old(inode.block)[slot := b]
      ensures Loose() == old(Loose()) - {b}
    {
      ProgressRoot(inode, n, g0, SnapOf(inode), att, p, b);
      inode.block := inode.block[slot := b];
      owner := owner[b := Owned(inode, p)];
    }

    /** `*(ptr + slot) = b` in indirect block x, then `modify(mark)`. */
    method LinkChild(inode: Inode, x: Word, slot: nat, b: Word, mark: Word,
                     ghost n: nat, ghost g0: Snap<Inode>, ghost att: iset<Pos>, ghost p: Pos)
      requires Progress(inode, n, g0, SnapOf(inode), att)
      requires !IsRoot(p) && Within(p) && p !in att && Parent(p) in att && Slot(p) == slot < K
      requires SnapOf(inode).At(Parent(p)) == x && b in blocks && b !in owner && mark in blocks
      modifies this`blocks, this`dirty, this`owner
      ensures Progress(inode, n, g0, SnapOf(inode), att + iset{p})
      ensures SnapOf(inode).At(p) == b
      ensures forall q | q in att :: SnapOf(inode).At(q) == old(SnapOf(inode)).At(q)
      ensures Untouched(old(blocks), old(owner), blocks, owner, {b})
      ensures Marks(old(Cache()), Cache(), {x})
      ensures dirty == old(dirty) + {mark}
      ensures Loose() == old(Loose()) - {b}
    {
      ProgressChild(inode, n, g0, SnapOf(inode), att, p, b);
      blocks := blocks[x := PutWord(blocks[x], slot, b)];
      owner := owner[b := Owned(inode, p)];
      dirty := dirty + {mark};
    }

    /** Block b is reserved and zero, and the positions att of the file of n blocks are attached. */
    ghost predicate Grown(inode: Inode, n: nat, g0: Snap<Inode>, att: iset<Pos>, b: Word)
      reads this, inode
    {
      && Progress(inode, n, g0, SnapOf(inode), att)
      && b in blocks && b !in owner && blocks[b] == ZeroBlock()
    }

    /** Block b, still zero, sits at position Data(n). */
    ghost predicate Placed(inode: Inode, n: nat, b: Word)
      reads this, inode
    {
      SnapOf(inode).At(Data(n)) == b && b in blocks && blocks[b] == ZeroBlock()
    }

    /** The block of a root pointer: allocated and stored in the inode when the range is first entered. */
    method EnsureRoot(inode: Inode, slot: nat, isNew: bool,
                      ghost n: nat, ghost g0: Snap<Inode>, ghost att: iset<Pos>, ghost p: Pos, ghost b: Word)
      returns (ok: bool, root: Word)
      requires Grown(inode, n, g0, att, b)
      requires IsRoot(p) && Within(p) && RootSlot(p) == slot && (isNew <==> p !in att)
      modifies this`blocks, this`owner, this`refused, inode`block
      ensures refused == old(refused) + if ok then 0 else 1
      ensures Grown(inode, n, g0, if ok then att + iset{p} else att, b)
      ensures ok ==> SnapOf(inode).At(p) == root && root in blocks && root in owner
      ensures ok ==> inode.block == old(inode.block)[slot := root]
      ensures ok && isNew ==> root !in old(blocks)
      ensures ok ==> Marks(old(Cache()), Cache(), if isNew then {root} else {})
      ensures Grew(old(Cache()), Cache())
      ensures Loose() == old(Loose())
    {
      hide Tree, Kept, Closed, Progress, Loc, LiveSet;
      if isNew {
        ok, root := Reserve(inode, n, g0, att);
        if ok {
          LinkRoot(inode, slot, root, n, g0, att, p);
          Attached(inode, n, g0, SnapOf(inode), att + iset{p}, p);
        }
      } else {
        root := inode.block[slot];
        ok := root in blocks;
        assert att + iset{p} == att;
        Attached(inode, n, g0, SnapOf(inode), att, p);
      }
    }

    /** Store a reserved leaf in slot of its parent block x, and b in the first word of the leaf. */
    method LinkLeaf(inode: Inode, x: Word, slot: nat, leaf: Word, b: Word,
                    ghost n: nat, ghost g0: Snap<Inode>, ghost att: iset<Pos>, ghost leafPos: Pos)
      requires Grown(inode, n, g0, att, b) && leaf in blocks && leaf !in owner && leaf != b
      requires NewLeafAt(n, att, leafPos) && Slot(leafPos) == slot < K && SnapOf(inode).At(Parent(leafPos)) == x
      modifies this`blocks, this`dirty, this`owner
      ensures Progress(inode, n, g0, SnapOf(inode), att + iset{leafPos} + iset{Data(n)})
      ensures Placed(inode, n, b)
      ensures Marks(old(Cache()), Cache(), {}) && dirty == old(dirty) + {x, leaf} && x != b
      ensures Loose() == old(Loose()) - {leaf, b}
    {
      hide Marks, Tree, Kept, Closed, Progress, Loc, LiveSet, Live;
      Attached(inode, n, g0, SnapOf(inode), att, Parent(leafPos));
      LinkChild(inode, x, slot, leaf, x, n, g0, att, leafPos);
      ghost var c := Cache();
      LinkChild(inode, leaf, 0, b, leaf, n, g0, att + iset{leafPos}, Data(n));
      MarksThen(old(Cache()), c, Cache(), {x}, {leaf}, {});
    }

    /** A new leaf is needed under block x. */
    method AppendInNewLeaf(inode: Inode, x: Word, slot: nat, b: Word,
                           ghost n: nat, ghost g0: Snap<Inode>, ghost att: iset<Pos>, ghost leafPos: Pos)
      returns (ok: bool)
      requires Grown(inode, n, g0, att, b)
      requires NewLeafAt(n, att, leafPos) && Slot(leafPos) == slot < K && SnapOf(inode).At(Parent(leafPos)) == x
      modifies this`blocks, this`dirty, this`owner, this`refused
      ensures refused == old(refused) + if ok then 0 else 1
      ensures Progress(inode, n, g0, SnapOf(inode), if ok then att + iset{leafPos} + iset{Data(n)} else att)
      ensures ok ==> Placed(inode, n, b)
      ensures ok ==> Marks(old(Cache()), Cache(), {}) && x in dirty
      ensures !ok ==> Grew(old(Cache()), Cache())
      ensures b in dirty <==> b in old(dirty)
      ensures Loose() == old(Loose()) - if ok then {b} else {}
    {
      hide Marks, Tree, Kept, Closed, Progress, Loc, LiveSet, Live;
      var leaf;
      ok, leaf := Reserve(inode, n, g0, att);
      if ok {
        ghost var c := Cache();
        LinkLeaf(inode, x, slot, leaf, b, n, g0, att, leafPos);
        MarksThen(old(Cache()), c, Cache(), {leaf}, {}, {});
      }
    }

    /** The leaf exists: read it from slot of its parent block x and store b at index inner. */
    method AppendInLeaf(inode: Inode, x: Word, slot: nat, inner: nat, b: Word,
                        ghost n: nat, ghost g0: Snap<Inode>, ghost att: iset<Pos>, ghost leafPos: Pos)
      returns (ok: bool)
      requires Grown(inode, n, g0, att, b)
      requires leafPos.Leaf? && !IsRoot(leafPos) && leafPos in att
      requires Slot(leafPos) == slot < K && SnapOf(inode).At(Parent(leafPos)) == x
      requires DIRECT <= n && Within(Data(n)) && Parent(Data(n)) == leafPos && Slot(Data(n)) == inner < K
               && Data(n) !in att
      modifies this`blocks, this`dirty, this`owner
      ensures Progress(inode, n, g0, SnapOf(inode), att + iset{Data(n)})
      ensures ok && Placed(inode, n, b)
      ensures Marks(old(Cache()), Cache(), {})
      ensures b in dirty <==> b in old(dirty)
      ensures Loose() == old(Loose()) - {b}
    {
      hide Marks, Tree, Kept, Closed, Progress, Loc, LiveSet, Live;
      Attached(inode, n, g0, SnapOf(inode), att, leafPos);
      var leaf := GetWord(blocks[x], slot);
      ok := leaf in blocks;
      if ok {
        LinkChild(inode, leaf, inner, b, leaf, n, g0, att, Data(n));
        MarksMore(old(Cache()), Cache(), {leaf}, {});
      }
    }

    /**
     * Store a reserved second-level block in slot of the triple root, a reserved leaf in that block, and
     * b in the leaf.  The block marked dirty for the change to the root is `mark`.
     */
    method LinkMid(inode: Inode, root: Word, slot: nat, mid: Word, leaf: Word, b: Word, mark: Word,
                   ghost n: nat, ghost g0: Snap<Inode>, ghost att: iset<Pos>, ghost leafPos: Pos)
      requires Grown(inode, n, g0, att, b) && mid in blocks && mid !in owner && leaf in blocks && leaf !in owner
      requires mid != b && leaf != b && leaf != mid && mark in blocks
      requires Tind in att && SnapOf(inode).At(Tind) == root
      requires slot < K && TMid(slot) !in att && NewMidAt(n, att, leafPos, slot)
      modifies this`blocks, this`dirty, this`owner
      ensures Progress(inode, n, g0, SnapOf(inode), att + iset{TMid(slot)} + iset{leafPos} + iset{Data(n)})
      ensures Placed(inode, n, b)
      ensures Marks(old(Cache()), Cache(), {root}) && dirty == old(dirty) + {mark, mid, leaf}
      ensures Loose() == old(Loose()) - {mid, leaf, b}
    {
      hide Marks, Tree, Kept, Closed, Progress, Loc, LiveSet, Live;
      LinkChild(inode, root, slot, mid, mark, n, g0, att, TMid(slot));
      ghost var c := Cache();
      LinkLeaf(inode, mid, 0, leaf, b, n, g0, att + iset{TMid(slot)}, leafPos);
      MarksThen(old(Cache()), c, Cache(), {root}, {}, {root});
    }

    /** A new second-level block and its first leaf are needed under the triple root. */
    method AppendInNewMid(inode: Inode, root: Word, slot: nat, b: Word, mark: Word,
                          ghost n: nat, ghost g0: Snap<Inode>, ghost att: iset<Pos>, ghost leafPos: Pos)
      returns (ok: bool)
      requires Grown(inode, n, g0, att, b) && Tind in att && SnapOf(inode).At(Tind) == root && root in blocks
      requires slot < K && TMid(slot) !in att && NewMidAt(n, att, leafPos, slot) && mark in blocks && mark != b
      modifies this`blocks, this`dirty, this`owner, this`refused
      ensures refused == old(refused) + if ok then 0 else 1
      ensures Progress(inode, n, g0, SnapOf(inode),
                       if ok then att + iset{TMid(slot)} + iset{leafPos} + iset{Data(n)} else att)
      ensures ok ==> Placed(inode, n, b)
      ensures ok ==> Marks(old(Cache()), Cache(), {root})
      ensures ok && root != mark ==> (root in dirty <==> root in old(dirty))
      ensures !ok ==> Grew(old(Cache()), Cache())
      ensures b in dirty <==> b in old(dirty)
      ensures if ok then Loose() == old(Loose()) - {b} else old(Loose()) <= Loose()
    {
      hide Marks, Tree, Kept, Closed, Progress, Loc, LiveSet, Live, NewMidAt, FileSystem.Loose, Placed;
      var mid, leaf;
      ghost var loose := Loose();
      ok, mid := Reserve(inode, n, g0, att);
      if !ok { return; }
      ghost var c1 := Cache();
      ok, leaf := Reserve(inode, n, g0, att);
      if !ok { return; }
      assert root != mid && root != leaf;
      TakenBack(loose, mid, leaf, b);
      ghost var c2 := Cache();
      LinkMid(inode, root, slot, mid, leaf, b, mark, n, g0, att, leafPos);
      MarksThen(old(Cache()), c1, c2, {mid}, {leaf}, {mid, leaf});
      MarksThen(old(Cache()), c2, Cache(), {mid, leaf}, {root}, {root});
    }

    /** The second-level block mid exists: store b under it, in a new leaf when the last one is full. */
    method AppendUnderMid(inode: Inode, mid: Word, innerIndex: nat, b: Word, ghost n: nat, ghost g0: Snap<Inode>,
                          ghost att: iset<Pos>, ghost q: nat, ghost s: nat, ghost t: nat)
      returns (ok: bool)
      requires Grown(inode, n, g0, att, b)
      requires q < K && s < K && t < K && n == TIND_START + K2 * q + K * s + t
      requires innerIndex == K * s + t != 0 && att == LiveSet(n) && SnapOf(inode).At(TMid(q)) == mid
      modifies this`blocks, this`dirty, this`owner, this`refused
      ensures refused == old(refused) + if ok then 0 else 1
      ensures Progress(inode, n, g0, SnapOf(inode), if ok then LiveSet(n + 1) else att)
      ensures ok ==> Placed(inode, n, b)
      ensures ok ==> Marks(old(Cache()), Cache(), {})
      ensures !ok ==> Grew(old(Cache()), Cache())
      ensures b in dirty <==> b in old(dirty)
      ensures Loose() == old(Loose()) - if ok then {b} else {}
    {
      hide Marks, Tree, Kept, Closed, Progress, Loc, Live;
      LiveNext(n);
      FreshTriple(n, q, s, t);
      TriplePlace(n, q, s, t);
      TripleCounts(n, q, s, t);
      ghost var leafPos := Parent(Data(n));
      var numDoubleIndirects := (innerIndex + K - 1) / K;
      var doubleInnerIndex := innerIndex % K;
      if doubleInnerIndex == 0 {
        ok := AppendInNewLeaf(inode, mid, numDoubleIndirects, b, n, g0, att, leafPos);
        assert LiveSet(n + 1) == att + iset{leafPos} + iset{Data(n)};
      } else {
        ok := AppendInLeaf(inode, mid, numDoubleIndirects - 1, doubleInnerIndex, b, n, g0, att, leafPos);
        assert LiveSet(n + 1) == att + iset{Data(n)};
      }
    }

    /** The same, with the second-level block read from the triple root. */
    method AppendInMid(inode: Inode, root: Word, numIndirects: nat, innerIndex: nat, b: Word, ghost n: nat,
                       ghost g0: Snap<Inode>, ghost att: iset<Pos>, ghost q: nat, ghost s: nat, ghost t: nat)
      returns (ok: bool)
      requires Grown(inode, n, g0, att, b)
      requires q < K && s < K && t < K && n == TIND_START + K2 * q + K * s + t && numIndirects == q + 1
      requires innerIndex == K * s + t != 0 && att == LiveSet(n) && inode.block[TIND_SLOT] == root
      modifies this`blocks, this`dirty, this`owner, this`refused
      ensures refused == old(refused) + if ok then 0 else 1
      ensures Progress(inode, n, g0, SnapOf(inode), if ok then LiveSet(n + 1) else att)
      ensures ok ==> Placed(inode, n, b)
      ensures ok ==> Marks(old(Cache()), Cache(), {})
      ensures !ok ==> Grew(old(Cache()), Cache())
      ensures b in dirty <==> b in old(dirty)
      ensures Loose() == old(Loose()) - if ok then {b} else {}
    {
      hide Marks, Tree, Kept, Closed, Progress, Loc, LiveSet, Live;
      TriplePlace(n, q, s, t);
      Attached(inode, n, g0, SnapOf(inode), att, Tind);
      Attached(inode, n, g0, SnapOf(inode), att, TMid(q));
      var mid := GetWord(blocks[root], numIndirects - 1);
      if mid !in blocks { return false; }
      ok := AppendUnderMid(inode, mid, innerIndex, b, n, g0, att, q, s, t);
    }

    /** The state before a new block b is linked in as block n of the file. */
    ghost predicate Pending(inode: Inode, n: nat, b: Word)
      reads this, inode
    {
      && n < MAX_FILE_BLOCKS
      && Grown(inode, n, SnapOf(inode), LiveSet(n), b)
    }

    /**
     * Block b is now block n of the file; when the step failed the file still has its n blocks.
     * Every block with new contents is marked dirty, apart from the triple root when it gains an entry.
     */
    twostate predicate Appended(inode: Inode, n: nat, b: Word, ok: bool)
      reads this, inode
    {
      && Progress(inode, n, old(SnapOf(inode)), SnapOf(inode), LiveSet(if ok then n + 1 else n))
      && (ok ==> Placed(inode, n, b))
      && (ok ==> Marks(old(Cache()), Cache(), if TripleEntry(n) then {inode.block[TIND_SLOT]} else {}))
      && (ok && TripleEntry(n) ==> (inode.block[TIND_SLOT] in dirty <==> inode.block[TIND_SLOT] in old(dirty)))
      && (ok && n == TIND_START ==> inode.block[TIND_SLOT] !in old(blocks))
      && (!ok ==> Grew(old(Cache()), Cache()))
      && (b in dirty <==> b in old(dirty))
      && (if ok then Loose() == old(Loose()) - {b} else old(Loose()) <= Loose())
      && refused == old(refused) + if ok then 0 else 1
    }

    method AppendDirect(inode: Inode, n: nat, b: Word)
      requires Pending(inode, n, b) && n < DIRECT
      modifies this`owner, inode`block
      ensures Appended(inode, n, b, true)
    {
      LiveNext(n);
      FreshDirect(n);
      LinkRoot(inode, n, b, n, SnapOf(inode), LiveSet(n), Data(n));
    }

    method AppendSingle(inode: Inode, n: nat, b: Word) returns (ok: bool)
      requires Pending(inode, n, b) && DIRECT <= n <= IBLOCK_12
      modifies this`blocks, this`dirty, this`owner, this`refused, inode`block
      ensures Appended(inode, n, b, ok)
    {
      hide Marks, Tree, Kept, Closed, Progress, Loc, Live;
      LiveNext(n);
      FreshSingle(n);
      ghost var g0, att := SnapOf(inode), LiveSet(n);
      var root;
      ok, root := EnsureRoot(inode, IND_SLOT, n == DIRECT, n, g0, att, Leaf(0), b);
      if ok {
        att := att + iset{Leaf(0)};
        ghost var c := Cache();
        LinkChild(inode, root, n - DIRECT, b, root, n, g0, att, Data(n));
        MarksThen(old(Cache()), c, Cache(), if n == DIRECT then {root} else {}, {root}, {});
        assert LiveSet(n + 1) == att + iset{Data(n)};
      }
    }

    method AppendDouble(inode: Inode, n: nat, b: Word) returns (ok: bool)
      requires Pending(inode, n, b) && IBLOCK_12 < n <= IBLOCK_13
      modifies this`blocks, this`dirty, this`owner, this`refused, inode`block
      ensures Appended(inode, n, b, ok)
    {
      hide Marks, Tree, Kept, Closed, Progress, Loc, Live;
      LiveNext(n);
      FreshDouble(n);
      ghost var g0, att, leafPos := SnapOf(inode), LiveSet(n), Parent(Data(n));
      var root;
      ok, root := EnsureRoot(inode, DIND_SLOT, n == DIND_START, n, g0, att, Dind, b);
      if !ok { return; }
      att := att + iset{Dind};
      ghost var c := Cache();
      var numIndirects := (n - DIRECT - 1) / K;
      var innerIndex := (n - DIRECT - K) % K;
      if innerIndex == 0 {
        ok := AppendInNewLeaf(inode, root, numIndirects, b, n, g0, att, leafPos);
        if ok {
          MarksThen(old(Cache()), c, Cache(), if n == DIND_START then {root} else {}, {}, {});
          assert LiveSet(n + 1) == att + iset{leafPos} + iset{Data(n)};
          return;
        }
      } else {
        ok := AppendInLeaf(inode, root, numIndirects - 1, innerIndex, b, n, g0, att, leafPos);
        if ok {
          MarksThen(old(Cache()), c, Cache(), {}, {}, {});
          assert LiveSet(n + 1) == att + iset{Data(n)};
          return;
        }
      }
      GrewThen(old(Cache()), c, Cache());
      ProgressRestrict(inode, n, g0, SnapOf(inode), att, n);
    }

    /** The triple root exists: store b below it, under a new second-level block when the last one is full. */
    method AppendUnderRoot(inode: Inode, n: nat, root: Word, b: Word, ghost g0: Snap<Inode>,
                           ghost att: iset<Pos>, ghost q: nat, ghost s: nat, ghost t: nat)
      returns (ok: bool)
      requires Grown(inode, n, g0, att, b) && att == LiveSet(n) + iset{Tind} && n < TREE_CAPACITY
      requires q < K && s < K && t < K && n == TIND_START + K2 * q + K * s + t
      requires SnapOf(inode).At(Tind) == root && root in blocks && inode.block[TIND_SLOT] == root
      modifies this`blocks, this`dirty, this`owner, this`refused
      ensures refused == old(refused) + if ok then 0 else 1
      ensures Progress(inode, n, g0, SnapOf(inode), if ok then LiveSet(n + 1) else att)
      ensures ok ==> Placed(inode, n, b)
      ensures ok ==> Marks(old(Cache()), Cache(), if TripleEntry(n) then {root} else {})
      ensures ok && TripleEntry(n) ==> (root in dirty <==> root in old(dirty))
      ensures !ok ==> Grew(old(Cache()), Cache())
      ensures b in dirty <==> b in old(dirty)
      ensures if ok then Loose() == old(Loose()) - {b} else old(Loose()) <= Loose()
    {
      hide Marks, Tree, Kept, Closed, Progress, Loc, Live, FileSystem.Loose;
      LiveNext(n);
      FreshTriple(n, q, s, t);
      TriplePlace(n, q, s, t);
      TripleCounts(n, q, s, t);
      ghost var leafPos := Parent(Data(n));
      var numIndirects := (n - DIRECT - K - 1) / K2;
      var innerIndex := (n - DIRECT - K - K2) % K2;
      if innerIndex == 0 {
        DistinctRoots(inode, n, g0, SnapOf(inode), att);
        ok := AppendInNewMid(inode, root, numIndirects, b, inode.block[DIND_SLOT], n, g0, att, leafPos);
        assert LiveSet(n + 1) == att + iset{TMid(q)} + iset{leafPos} + iset{Data(n)};
      } else {
        assert att == LiveSet(n);
        ok := AppendInMid(inode, root, numIndirects, innerIndex, b, n, g0, att, q, s, t);
      }
    }

    method AppendTriple(inode: Inode, n: nat, b: Word) returns (ok: bool)
      requires Pending(inode, n, b) && IBLOCK_13 < n
      modifies this`blocks, this`dirty, this`owner, this`refused, inode`block
      ensures Appended(inode, n, b, ok)
    {
      hide Marks, Tree, Kept, Closed, Progress, Loc, LiveSet, Live, FileSystem.Loose;
      ghost var q, s, t := TripleDigits(n);
      TriplePlace(n, q, s, t);
      FirstTriple();
      ghost var g0, att := SnapOf(inode), LiveSet(n);
      var root;
      TindLive(n);
      ok, root := EnsureRoot(inode, TIND_SLOT, n == TIND_START, n, g0, att, Tind, b);
      if !ok { return; }
      att := att + iset{Tind};
      ghost var c := Cache();
      ok := AppendUnderRoot(inode, n, root, b, g0, att, q, s, t);
      if ok {
        MarksThen(old(Cache()), c, Cache(), if n == TIND_START then {root} else {},
                  if TripleEntry(n) then {root} else {}, if TripleEntry(n) then {root} else {});
      } else {
        GrewThen(old(Cache()), c, Cache());
        ProgressRestrict(inode, n, g0, SnapOf(inode), att, n);
      }
    }

    lemma TindLive(n: nat)
      requires n >= TIND_START
      ensures Tind in LiveSet(n) <==> n != TIND_START
    {
    }

    /** Links the reserved block b in as block n, in the range n falls in. */
    method Place(inode: Inode, n: nat, b: Word) returns (ok: bool)
      requires Pending(inode, n, b)
      modifies this`blocks, this`dirty, this`owner, this`refused, inode`block
      ensures Appended(inode, n, b, ok)
    {
      hide Pending, Appended;
      ok := true;
      if n < DIRECT {
        AppendDirect(inode, n, b);
      } else if n <= IBLOCK_12 {
        ok := AppendSingle(inode, n, b);
      } else if n <= IBLOCK_13 {
        ok := AppendDouble(inode, n, b);
      } else {
        ok := AppendTriple(inode, n, b);
      }
    }

    /** Allocates a block and links it in; the sector count is not touched yet. */
    method Grow(inode: Inode, n: nat) returns (ok: bool, index: Word)
      requires n < MAX_FILE_BLOCKS && owner.Keys <= blocks.Keys && SnapOf(inode).Holds(inode, LiveSet(n))
      modifies this`blocks, this`dirty, this`owner, this`refused, inode`block
      ensures refused == old(refused) + if ok then 0 else 1
      ensures Progress(inode, n, old(SnapOf(inode)), SnapOf(inode), LiveSet(if ok then n + 1 else n))
      ensures ok ==> Placed(inode, n, index) && index !in old(blocks)
      ensures ok ==> Marks(old(Cache()), Cache(), {index} + if TripleEntry(n) then {inode.block[TIND_SLOT]} else {})
      ensures ok && TripleEntry(n) ==> (inode.block[TIND_SLOT] in dirty <==> inode.block[TIND_SLOT] in old(dirty))
      ensures ok && n == TIND_START ==> inode.block[TIND_SLOT] !in old(blocks)
      ensures !ok ==> Grew(old(Cache()), Cache())
      ensures ok ==> (index in dirty <==> index in old(dirty))
      ensures if ok then Loose() == old(Loose()) else old(Loose()) <= Loose()
    {
      hide Tree, Kept, Closed, Progress, Loc, LiveSet, Live;
      ghost var g0 := SnapOf(inode);
      ok, index := AllocBlock();
      ghost var g1, c := SnapOf(inode), Cache();
      ProgressStart(inode, n, g0);
      if ok {
        ProgressAlloc(inode, n, g0, g0, LiveSet(n), index, ZeroBlock());
        ProgressStart(inode, n, g1);
        ok := Place(inode, n, index);
        ProgressThen(inode, n, g0, g1, SnapOf(inode), LiveSet(if ok then n + 1 else n));
      }
    }

    /**
     * `alloc_block(block, index, inode)`: appends one zero block to the file.  The sector count is a
     * 32-bit word; it never wraps because the volume runs out of block numbers first.
     */
    method AppendBlock(inode: Inode) returns (ok: bool, index: Word)
      requires Valid() && inode in files
      modifies this`blocks, this`dirty, this`owner, this`refused, inode`block, inode`iBlocks
      ensures refused == old(refused) + if ok then 0 else 1
      ensures Valid()
      ensures ok ==> DataList(inode) == old(DataList(inode)) + [index]
      ensures ok ==> Contents(inode) == old(Contents(inode)) + [ZeroBlock()]
      ensures !ok ==> inode.iBlocks == old(inode.iBlocks)
      ensures !ok ==> DataList(inode) == old(DataList(inode)) && Contents(inode) == old(Contents(inode))
      ensures forall p | p in LiveSet(old(inode.Count())) :: SnapOf(inode).At(p) == old(SnapOf(inode)).At(p)
      ensures forall f | f in files && f != inode ::
                DataList(f) == old(DataList(f)) && Contents(f) == old(Contents(f))
      ensures ok ==> index !in old(blocks) && index in blocks && index !in dirty
      ensures ok ==> Marks(old(Cache()), Cache(), {index}
                           + if TripleEntry(old(inode.Count())) then {inode.block[TIND_SLOT]} else {})
      ensures ok && TripleEntry(old(inode.Count())) ==>
                (inode.block[TIND_SLOT] in dirty <==> inode.block[TIND_SLOT] in old(dirty))
      ensures ok && old(inode.Count()) == TIND_START ==> inode.block[TIND_SLOT] !in dirty
      ensures if ok then Loose() == old(Loose()) else old(Loose()) <= Loose()
    {
      hide Tree, Kept, Closed, Progress, Loc, LiveSet, Live, Marks, TripleEntry, ListOf, ContentOf;
      var n := inode.iBlocks / SECTORS_PER_BLOCK;
      ghost var g0 := SnapOf(inode);
      NextCount(inode.iBlocks);
      CountBounded(inode, g0, n, VOLUME_BLOCKS);
      FirstTriple();
      ok, index := Grow(inode, n);
      ghost var g, m := SnapOf(inode), if ok then n + 1 else n;
      forall f | f in files && f != inode
        ensures SnapOf(f).Holds(f, LiveSet(f.Count()))
        ensures DataList(f) == old(DataList(f)) && Contents(f) == old(Contents(f))
      {
        OtherFile(inode, n, g0, g, LiveSet(m), f, f.block, f.Count());
      }
      ProgressLists(inode, n, g0, g, m);
      if ok {
        MarksGrew(old(Cache()), Cache(), {index} + if TripleEntry(n) then {inode.block[TIND_SLOT]} else {});
        ListsGrow(g, n, index);
        inode.iBlocks := (inode.iBlocks + SECTORS_PER_BLOCK) % TWO_32;
      }
    }

    /**
     * `get_block(index, dirty = true, off, buf, |buf|)` on a block of the file: copies buf in and
     * marks the block dirty.
     */
    method PutData(inode: Inode, ghost k: nat, index: Word, off: nat, buf: seq<Byte>)
      requires Valid() && inode in files && k < inode.Count() && index == SnapOf(inode).At(Data(k))
      requires off + |buf| <= BLOCK_SIZE
      modifies this`blocks, this`dirty
      ensures Valid()
      ensures index in old(blocks) && blocks == old(blocks)[index := PutBytes(old(blocks)[index], off, buf)]
      ensures dirty == old(dirty) + {index}
      ensures DataList(inode) == old(DataList(inode))
      ensures forall p | p in LiveSet(inode.Count()) :: SnapOf(inode).At(p) == old(SnapOf(inode)).At(p)
      ensures Contents(inode) == old(Contents(inode))[k := PutBytes(old(Contents(inode))[k], off, buf)]
      ensures forall f | f in files && f != inode ::
                DataList(f) == old(DataList(f)) && Contents(f) == old(Contents(f))
    {
      hide Tree, Loc, LiveSet, ListOf, ContentOf;
      NextCount(inode.iBlocks);
      ghost var g, n := SnapOf(inode), inode.Count();
      DataThere(inode, g, n, k);
      DataWritten(inode, g, n, k, index, PutBytes(blocks[index], off, buf));
      blocks := blocks[index := PutBytes(blocks[index], off, buf)];
      dirty := dirty + {index};
      forall f | f in files && f != inode
        ensures SnapOf(f).Holds(f, LiveSet(f.Count()))
        ensures DataList(f) == old(DataList(f)) && Contents(f) == old(Contents(f))
      {
        NextCount(f.iBlocks);
        DataWrittenOther(inode, g, index, k, blocks[index], f, f.block, f.Count());
      }
    }

    /** An inode joins with no blocks, as `inode_init` leaves it. */
    method NewFile() returns (inode: Inode)
      requires Valid()
      modifies this`files
      ensures Valid() && fresh(inode) && files == old(files) + {inode}
      ensures inode.Count() == 0 && inode.iSize == 0
    {
      inode := new Inode();
      files := files + {inode};
    }

    /** `free_block(index)`: clears the bitmap bit and drops the cached copy; refuses a free block. */
    method FreeBlock(index: Word) returns (ok: bool)
      modifies this`blocks, this`dirty
      ensures ok <==> index in old(blocks)
      ensures blocks == old(blocks) - {index}
      ensures dirty == if ok then old(dirty) - {index} else old(dirty)
    {
      ok := index in blocks;
      if ok {
        blocks := blocks - {index};
        dirty := dirty - {index};
      }
    }
  }

  /**
   * No block serves two purposes: two live positions of any files hold the same block only if they are
   * one position.
   */
  lemma BlocksDistinct(fs: FileSystem, f: Inode, p: Pos, f': Inode, p': Pos)
    requires fs.Valid() && f in fs.files && f' in fs.files && Live(p, f.Count()) && Live(p', f'.Count())
    ensures fs.SnapOf(f).At(p) in fs.blocks && fs.SnapOf(f').At(p') in fs.blocks
    ensures fs.SnapOf(f).At(p) == fs.SnapOf(f').At(p') <==> f == f' && p == p'
  {
    assert p in LiveSet(f.Count()) && p' in LiveSet(f'.Count());
  }

  lemma NextCount(w: Word)
    ensures var n := w / SECTORS_PER_BLOCK;
            (w + SECTORS_PER_BLOCK) % TWO_32 / SECTORS_PER_BLOCK == if n + 1 < MAX_FILE_BLOCKS then n + 1 else 0
    ensures w / SECTORS_PER_BLOCK < MAX_FILE_BLOCKS
  {
  }

  /** Block n is the first one of a leaf that is not attached yet, under an attached parent. */
  ghost predicate NewLeafAt(n: nat, att: iset<Pos>, leafPos: Pos) {
    NewLeafIn(n, att, leafPos) && Parent(leafPos) in att
  }

  ghost predicate NewMidAt(n: nat, att: iset<Pos>, leafPos: Pos, slot: nat) {
    && NewLeafIn(n, att, leafPos) && Parent(leafPos) == TMid(slot) && Slot(leafPos) == 0
    && Parent(TMid(slot)) == Tind && Slot(TMid(slot)) == slot
  }

  ghost predicate NewLeafIn(n: nat, att: iset<Pos>, leafPos: Pos) {
    && leafPos.Leaf? && !IsRoot(leafPos) && Within(leafPos) && leafPos !in att
    && DIRECT <= n && Within(Data(n)) && Parent(Data(n)) == leafPos && Slot(Data(n)) == 0 && Data(n) !in att
  }

  /** Block n of a file is the first one under a new second-level block of the triple range. */
  predicate TripleEntry(n: nat) {
    n >= TIND_START && (n - TIND_START) % K2 == 0
  }

  lemma FirstTriple()
    ensures TripleEntry(TIND_START)
  {
  }

  /** Allocated blocks that nobody owned keep their contents, and stay unowned unless just linked. */
  ghost predicate Untouched<F>(st0: Store, owner0: map<Word, Owned<F>>,
                               st: Store, owner: map<Word, Owned<F>>, linked: set<Word>) {
    forall b | b in st0 && b !in owner0 :: b in st && st[b] == st0[b] && (b !in linked ==> b !in owner)
  }

  datatype Cached = Cached(st: Store, dirty: set<Word>)

  /** Blocks were only added, and only blocks were marked. */
  ghost predicate Grew(c0: Cached, c: Cached) {
    c0.st.Keys <= c.st.Keys && c0.dirty <= c.dirty <= c0.dirty + c.st.Keys
  }

  lemma TakenBack(s: set<Word>, x: Word, y: Word, b: Word)
    requires x !in s && y !in s
    ensures s + {x} + {y} - {x, y, b} == s - {b}
  {
  }

  /**
   * From c0 to c, every new block and every block with new contents is dirty, or in `except`; only
   * blocks get marked.
   */
  ghost predicate Marks(c0: Cached, c: Cached, except: set<Word>) {
    && Grew(c0, c)
    && forall b | b in c.st && (b !in c0.st || c.st[b] != c0.st[b]) :: b in c.dirty || b in except
  }

  lemma MarksGrew(c0: Cached, c: Cached, e: set<Word>)
    requires Marks(c0, c, e)
    ensures Grew(c0, c)
  {
  }

  lemma GrewThen(c0: Cached, c1: Cached, c2: Cached)
    requires Grew(c0, c1) && Grew(c1, c2)
    ensures Grew(c0, c2)
  {
  }

  lemma MarksMore(c0: Cached, c: Cached, e1: set<Word>, e: set<Word>)
    requires Marks(c0, c, e1) && e1 <= c.dirty + e
    ensures Marks(c0, c, e)
  {
  }

  lemma MarksThen(c0: Cached, c1: Cached, c2: Cached, e1: set<Word>, e2: set<Word>, e: set<Word>)
    requires Marks(c0, c1, e1) && Marks(c1, c2, e2) && e1 + e2 <= c2.dirty + e
    ensures Marks(c0, c2, e)
  {
  }
}
