/**
 * Allocation over all block groups: the super block counters, the search for a group with room, and
 * the index of a new group, which is computed from the counters (`SuperBlock::num_block_groups`).
 */
module Allocator {
  import opened Bytes
  import opened Groups

  /** Group numbers 0..31 are those whose disk offsets fit in 32 bits. */
  const MAX_GROUPS: nat := 32

  function CeilDiv(a: nat, b: nat): nat
    requires b > 0
  {
    (a + b - 1) / b
  }

  /** `num_block_groups()`. */
  function NumBlockGroups(blocksCount: nat, inodesCount: nat): nat {
    var blockN, inodeN := CeilDiv(blocksCount, TOTAL_BLOCKS_PER_GROUP), CeilDiv(inodesCount, PER_GROUP);
    var n := if inodeN < blockN then blockN else inodeN;
    if n != 0 then n else 1
  }

  /**
   * All g groups are out of blocks and one more block is being counted in: the computed index is g
   * exactly when there are at most 32 groups or enough inodes are in use.
   */
  lemma NewGroupForBlocks(g: nat, inodes: nat)
    requires 1 <= g && inodes <= PER_GROUP * g
    ensures NumBlockGroups(3 + PER_GROUP * g + 1, inodes) == g <==> g <= MAX_GROUPS || inodes > PER_GROUP * (g - 1)
  {
  }

  /**
   * All g groups are out of inodes and one more inode is being counted in.  Group 0 counts one inode
   * short, so the index is again g; with a full count it would skip a group.
   */
  lemma NewGroupForInodes(g: nat, blocks: nat)
    requires 1 <= g && blocks <= PER_GROUP * g
    ensures NumBlockGroups(3 + blocks, PER_GROUP * g - 1 + 1) == g
    ensures NumBlockGroups(3 + blocks, PER_GROUP * g + 1) == g + 1
  {
  }

  // ---- the groups as values ----

  function FreeBlocks(v: seq<GroupView>): nat {
    if v == [] then 0 else FreeBlocks(v[..|v| - 1]) + v[|v| - 1].freeBlocks
  }

  function FreeInodes(v: seq<GroupView>): nat {
    if v == [] then 0 else FreeInodes(v[..|v| - 1]) + v[|v| - 1].freeInodes
  }

  lemma OneGroup(g: GroupView)
    ensures FreeBlocks([g]) == g.freeBlocks && FreeInodes([g]) == g.freeInodes
  {
    assert [g][..0] == [];
  }

  lemma {:induction false} FreeUpdate(v: seq<GroupView>, k: nat, g: GroupView)
    requires k < |v|
    ensures FreeBlocks(v[k := g]) == FreeBlocks(v) - v[k].freeBlocks + g.freeBlocks
    ensures FreeInodes(v[k := g]) == FreeInodes(v) - v[k].freeInodes + g.freeInodes
  {
    var last := |v| - 1;
    if k == last {
      assert v[k := g][..last] == v[..last];
    } else {
      assert v[k := g][..last] == v[..last][k := g];
      FreeUpdate(v[..last], k, g);
    }
  }

  lemma {:induction false} FreeBounds(v: seq<GroupView>)
    requires forall k | 0 <= k < |v| :: v[k].freeBlocks <= PER_GROUP && v[k].freeInodes <= v[k].inodeQuota
    requires forall k | 0 <= k < |v| :: v[k].inodeQuota == if k == 0 then PER_GROUP - 1 else PER_GROUP
    ensures FreeBlocks(v) <= PER_GROUP * |v|
    ensures v != [] ==> FreeInodes(v) <= PER_GROUP * |v| - 1
  {
    if v != [] {
      FreeBounds(v[..|v| - 1]);
    }
  }

  lemma {:induction false} NoneFree(v: seq<GroupView>)
    ensures (forall k | 0 <= k < |v| :: v[k].freeBlocks == 0) ==> FreeBlocks(v) == 0
    ensures (forall k | 0 <= k < |v| :: v[k].freeInodes == 0) ==> FreeInodes(v) == 0
  {
    if v != [] {
      NoneFree(v[..|v| - 1]);
    }
  }

  /** The super block counts exactly the blocks and inodes in use. */
  ghost predicate Balanced(v: seq<GroupView>, blocksCount: int, inodesCount: int) {
    && 1 <= |v| <= MAX_GROUPS
    && (forall k | 0 <= k < |v| :: v[k].inodeQuota == if k == 0 then PER_GROUP - 1 else PER_GROUP)
    && (forall k | 0 <= k < |v| :: v[k].freeBlocks <= PER_GROUP && v[k].freeInodes <= v[k].inodeQuota)
    && blocksCount == 3 + PER_GROUP * |v| - FreeBlocks(v)
    && inodesCount == PER_GROUP * |v| - 1 - FreeInodes(v)
  }

  /** Some group has a free block. */
  ghost predicate SomeBlocks(v: seq<GroupView>) {
    exists k | 0 <= k < |v| :: v[k].freeBlocks > 0
  }

  /** Some group has a free inode. */
  ghost predicate SomeInodes(v: seq<GroupView>) {
    exists k | 0 <= k < |v| :: v[k].freeInodes > 0
  }

  /** Every block number below i is in use. */
  ghost predicate BlocksUsedBelow(v: seq<GroupView>, i: nat) {
    forall j: nat | j < i && j % TOTAL_BLOCKS_PER_GROUP < PER_GROUP :: BlockUsed(v, j)
  }

  /** The group counts fewer inodes than it has, and has handed out all it counts. */
  ghost predicate CountsShort(g: GroupView) {
    g.inodeQuota < PER_GROUP && g.freeInodes == 0
  }

  /** Every inode number below i is in use, except in groups that count short. */
  ghost predicate InodesUsedBelow(v: seq<GroupView>, i: nat) {
    forall j: nat | j < i :: InodeUsed(v, j) || (j / PER_GROUP < |v| && CountsShort(v[j / PER_GROUP]))
  }

  /** The blocks of group q are all in use when it counts none free, and the inodes when it counts them all. */
  ghost predicate FullWhereZero(v: seq<GroupView>) {
    && (forall q, p: nat | 0 <= q < |v| && v[q].freeBlocks == 0 && p < PER_GROUP :: p in v[q].blocks)
    && (forall q, p: nat | 0 <= q < |v| && v[q].freeInodes == 0 && !CountsShort(v[q]) && p < PER_GROUP ::
        p in v[q].inodes)
  }

  lemma FirstFitBlocks(v: seq<GroupView>, k: nat, pos: nat)
    requires FullWhereZero(v) && k <= |v| && pos < PER_GROUP
    requires forall j | 0 <= j < k :: v[j].freeBlocks == 0
    requires if k < |v| then forall p: nat | p < pos :: p in v[k].blocks else pos == 0
    ensures BlocksUsedBelow(v, k * TOTAL_BLOCKS_PER_GROUP + pos)
  {
    forall j: nat | j < k * TOTAL_BLOCKS_PER_GROUP + pos && j % TOTAL_BLOCKS_PER_GROUP < PER_GROUP
      ensures BlockUsed(v, j)
    {
      var q, p := j / TOTAL_BLOCKS_PER_GROUP, j % TOTAL_BLOCKS_PER_GROUP;
      assert j == q * TOTAL_BLOCKS_PER_GROUP + p;
      assert q < k || (q == k && p < pos);
      assert p in v[q].blocks;
    }
  }

  /** No inode number below i is free. */
  ghost predicate LeastInode(v: seq<GroupView>, i: nat) {
    forall j: nat | j < i :: InodeUsed(v, j)
  }

  /** Some inode of the group is not in use. */
  ghost predicate HidesInode(g: GroupView) {
    exists p: nat | p < PER_GROUP :: p !in g.inodes
  }

  /** First fit gives the least free inode number exactly while group 0 counts a free inode. */
  lemma LeastInodeExact(v: seq<GroupView>, k: nat, pos: nat)
    requires |v| > 0 && k <= |v| && pos < PER_GROUP && InodesUsedBelow(v, k * PER_GROUP + pos)
    requires if v[0].freeInodes == 0 then k > 0 && HidesInode(v[0]) else k == 0
    ensures LeastInode(v, k * PER_GROUP + pos) <==> v[0].freeInodes > 0
  {
    if v[0].freeInodes == 0 {
      var p: nat :| p < PER_GROUP && p !in v[0].inodes;
      assert !InodeUsed(v, p) && p < k * PER_GROUP + pos;
    }
  }

  /** Group 0 with one inode left counts none, so that the next number is handed out from a new group. */
  lemma LastInodeSkipped()
    ensures var v := [GroupView(PER_GROUP, 0, {}, Below(PER_GROUP - 1), PER_GROUP - 1)];
            && Balanced(v, 3, PER_GROUP - 1) && !SomeInodes(v)
            && InodesUsedBelow(v, PER_GROUP) && !InodeUsed(v, PER_GROUP - 1) && !LeastInode(v, PER_GROUP)
  {
    var v := [GroupView(PER_GROUP, 0, {}, Below(PER_GROUP - 1), PER_GROUP - 1)];
    assert v[..0] == [];
    assert PER_GROUP - 1 !in v[0].inodes;
  }

  lemma FirstFitInodes(v: seq<GroupView>, k: nat, pos: nat)
    requires FullWhereZero(v) && k <= |v| && pos < PER_GROUP
    requires forall j | 0 <= j < k :: v[j].freeInodes == 0
    requires if k < |v| then forall p: nat | p < pos :: p in v[k].inodes else pos == 0
    ensures InodesUsedBelow(v, k * PER_GROUP + pos)
  {
    forall j: nat | j < k * PER_GROUP + pos
      ensures InodeUsed(v, j) || (j / PER_GROUP < |v| && CountsShort(v[j / PER_GROUP]))
    {
      var q, p := j / PER_GROUP, j % PER_GROUP;
      assert j == q * PER_GROUP + p && p < PER_GROUP;
      assert q < k || (q == k && p < pos);
      assert p in v[q].inodes || CountsShort(v[q]);
    }
  }

  /** Block number i is in use: group * TOTAL_BLOCKS_PER_GROUP + position. */
  ghost predicate BlockUsed(v: seq<GroupView>, i: nat) {
    i / TOTAL_BLOCKS_PER_GROUP < |v| && i % TOTAL_BLOCKS_PER_GROUP in v[i / TOTAL_BLOCKS_PER_GROUP].blocks
  }

  /** Inode number i is in use: group * INODES_PER_GROUP + position. */
  ghost predicate InodeUsed(v: seq<GroupView>, i: nat) {
    i / PER_GROUP < |v| && i % PER_GROUP in v[i / PER_GROUP].inodes
  }

  ghost function EmptyView(): GroupView {
    GroupView(PER_GROUP, PER_GROUP, {}, {}, PER_GROUP)
  }

  lemma BalancedBounds(v: seq<GroupView>, blocksCount: int, inodesCount: int)
    requires Balanced(v, blocksCount, inodesCount)
    ensures 3 <= blocksCount <= 3 + PER_GROUP * |v| && 0 <= inodesCount < PER_GROUP * |v| && |v| <= MAX_GROUPS
  {
    FreeBounds(v);
  }

  /** With every group full, the counters name the next group. */
  lemma BlocksExhausted(v: seq<GroupView>, blocksCount: int, inodesCount: int)
    requires Balanced(v, blocksCount, inodesCount) && forall k | 0 <= k < |v| :: v[k].freeBlocks == 0
    ensures blocksCount >= 0 && inodesCount >= 0 && NumBlockGroups(blocksCount + 1, inodesCount) == |v|
  {
    NoneFree(v);
    BalancedBounds(v, blocksCount, inodesCount);
    NewGroupForBlocks(|v|, inodesCount);
  }

  lemma InodesExhausted(v: seq<GroupView>, blocksCount: int, inodesCount: int)
    requires Balanced(v, blocksCount, inodesCount) && forall k | 0 <= k < |v| :: v[k].freeInodes == 0
    ensures blocksCount >= 0 && inodesCount >= 0 && NumBlockGroups(blocksCount, inodesCount + 1) == |v|
  {
    NoneFree(v);
    BalancedBounds(v, blocksCount, inodesCount);
    NewGroupForInodes(|v|, blocksCount - 3);
  }

  lemma BlockTakenBalanced(v: seq<GroupView>, blocksCount: int, inodesCount: int, k: nat, pos: nat)
    requires Balanced(v, blocksCount, inodesCount) && k < |v| && v[k].freeBlocks > 0
    requires pos < PER_GROUP && pos !in v[k].blocks
    ensures var v', index := v[k := BlockTaken(v[k], pos)], k * TOTAL_BLOCKS_PER_GROUP + pos;
            && Balanced(v', blocksCount + 1, inodesCount)
            && !BlockUsed(v, index)
            && (forall i: nat :: BlockUsed(v', i) <==> i == index || BlockUsed(v, i))
            && (forall i: nat :: InodeUsed(v', i) <==> InodeUsed(v, i))
  {
    FreeUpdate(v, k, BlockTaken(v[k], pos));
    GlobalIndex(k, pos);
  }

  /** Group and position are recovered from a global number. */
  lemma GlobalIndex(k: nat, pos: nat)
    requires pos < PER_GROUP
    ensures (k * TOTAL_BLOCKS_PER_GROUP + pos) / TOTAL_BLOCKS_PER_GROUP == k
    ensures (k * TOTAL_BLOCKS_PER_GROUP + pos) % TOTAL_BLOCKS_PER_GROUP == pos
    ensures (k * PER_GROUP + pos) / PER_GROUP == k && (k * PER_GROUP + pos) % PER_GROUP == pos
  {
  }

  lemma GroupAdded(v: seq<GroupView>, blocksCount: int, inodesCount: int)
    requires Balanced(v, blocksCount, inodesCount) && |v| < MAX_GROUPS
    ensures Balanced(v + [EmptyView()], blocksCount, inodesCount)
    ensures forall i: nat :: BlockUsed(v + [EmptyView()], i) <==> BlockUsed(v, i)
    ensures forall i: nat :: InodeUsed(v + [EmptyView()], i) <==> InodeUsed(v, i)
  {
    assert (v + [EmptyView()])[..|v|] == v;
  }

  /** Two groups share no storage. */
  ghost predicate Apart(g: BlockGroup, h: BlockGroup) {
    && g != h
    && g.blockBitmap != h.blockBitmap && g.blockBitmap != h.inodeBitmap
    && g.inodeBitmap != h.blockBitmap && g.inodeBitmap != h.inodeBitmap
  }

  /** Groups 0..n-1 share no storage. */
  ghost predicate AllApart(groups: map<nat, BlockGroup>, n: nat) {
    && (forall k | 0 <= k < n :: k in groups)
    && (forall j, k | 0 <= j < n && 0 <= k < n && j != k :: Apart(groups[j], groups[k]))
  }

  lemma AllApartMore(groups: map<nat, BlockGroup>, n: nat, g: BlockGroup)
    requires AllApart(groups, n) && forall j | 0 <= j < n :: j in groups && Apart(groups[j], g) && Apart(g, groups[j])
    ensures AllApart(groups[n := g], n + 1)
  {
  }

  class SuperBlock {
    var blocksCount: Word
    var inodesCount: Word
    var freeBlocksCount: Word
    var freeInodesCount: Word
    var groups: map<nat, BlockGroup>
    ghost var views: seq<GroupView>
    ghost var repr: set<object>

    /** The groups 0..n-1 exist, share no storage, and look as `views` says. */
    ghost predicate Grouped()
      reads this, repr
    {
      && this !in repr
      && (forall k: nat :: k in groups <==> k < |views|)
      && (forall k | 0 <= k < |views| :: Shows(groups[k], views[k]))
      && AllApart(groups, |views|)
    }

    ghost predicate Shows(g: BlockGroup, v: GroupView)
      reads this, repr
    {
      && g in repr && g.blockBitmap in repr && g.inodeBitmap in repr
      && g.Valid() && g.View() == v
    }

    ghost predicate Valid()
      reads this, repr
    {
      Grouped() && Balanced(views, blocksCount, inodesCount)
    }

    /** A fresh volume: one group whose free inode count is one short, with the root inode allocated. */
    constructor ()
      ensures Valid() && fresh(repr)
      ensures views == [GroupView(PER_GROUP, PER_GROUP - 2, {}, {0}, PER_GROUP - 1)]
    {
      hide SetBits, BlockGroup.Valid;
      blocksCount := 3;
      inodesCount := 1;
      freeBlocksCount := 0;
      freeInodesCount := 0;
      var g := new BlockGroup(PER_GROUP - 1);
      ghost var before := g.Inodes();
      var ok, index := g.AllocInode();
      assert index > 0 ==> 0 in before;
      groups := map[0 := g];
      views := [g.View()];
      repr := {g, g.blockBitmap, g.inodeBitmap};
      new;
      OneGroup(views[0]);
    }

    /** Work on group k alone leaves the other groups as they were. */
    method TakeBlock(k: nat, g: BlockGroup) returns (pos: nat)
      requires Grouped() && k < |views| && groups[k] == g && g.freeBlocks > 0
      modifies g`freeBlocks, g.blockBitmap, this`views
      ensures Grouped()
      ensures pos < PER_GROUP && pos !in old(views)[k].blocks && old(views)[k].freeBlocks > 0
      ensures forall i: nat | i < pos :: i in old(views)[k].blocks
      ensures views == old(views)[k := BlockTaken(old(views)[k], pos)]
    {
      hide SetBits, BlockGroup.Valid;
      assert Shows(g, views[k]);
      var ok;
      ok, pos := g.AllocBlock();
      views := views[k := g.View()];
      forall j | 0 <= j < |views| ensures Shows(groups[j], views[j]) {
        if j != k {
          assert old(Shows(groups[j], views[j])) && Apart(groups[j], groups[k]);
        }
      }
    }

    method TakeInode(k: nat, g: BlockGroup) returns (pos: nat)
      requires Grouped() && k < |views| && groups[k] == g && g.freeInodes > 0
      modifies g`freeInodes, g.inodeBitmap, this`views
      ensures Grouped()
      ensures pos < PER_GROUP && pos !in old(views)[k].inodes && old(views)[k].freeInodes > 0
      ensures forall i: nat | i < pos :: i in old(views)[k].inodes
      ensures views == old(views)[k := InodeTaken(old(views)[k], pos)]
    {
      hide SetBits, BlockGroup.Valid;
      assert Shows(g, views[k]);
      var ok;
      ok, pos := g.AllocInode();
      views := views[k := g.View()];
      forall j | 0 <= j < |views| ensures Shows(groups[j], views[j]) {
        if j != k {
          assert old(Shows(groups[j], views[j])) && Apart(groups[j], groups[k]);
        }
      }
    }

    /** `alloc_block_group`: the computed index is that of a group that does not exist yet. */
    method AllocBlockGroup() returns (index: nat)
      requires Grouped() && NumBlockGroups(blocksCount, inodesCount) == |views|
      modifies this`groups, this`views, this`repr
      ensures Grouped() && index == |old(views)| && views == old(views) + [EmptyView()]
      ensures index !in old(groups) && index in groups
                && groups[index].freeBlocks == groups[index].freeInodes == PER_GROUP
      ensures fresh(repr - old(repr))
    {
      hide SetBits, BlockGroup.Valid, NumBlockGroups, AllApart;
      index := NumBlockGroups(blocksCount, inodesCount);
      var g := new BlockGroup(PER_GROUP);
      groups := groups[index := g];
      views := views + [g.View()];
      repr := repr + {g, g.blockBitmap, g.inodeBitmap};
      forall j | 0 <= j < index ensures Shows(groups[j], views[j]) && Apart(groups[j], g) && Apart(g, groups[j]) {
        assert old(Shows(groups[j], views[j]));
      }
      AllApartMore(old(groups), index, g);
      assert Shows(groups[index], views[index]);
    }

    /**
     * `alloc_block`: the first group with a free block, or a new group.  The least number that is not
     * in use is handed out, and nothing else changes.
     */
    method AllocBlock() returns (index: nat)
      requires Valid() && (|views| < MAX_GROUPS || SomeBlocks(views))
      modifies this, repr
      ensures Valid() && fresh(repr - old(repr)) && |views| <= |old(views)| + 1
      ensures !BlockUsed(old(views), index) && index < TOTAL_BLOCKS_PER_GROUP * MAX_GROUPS
      ensures BlocksUsedBelow(old(views), index)
      ensures forall i: nat :: BlockUsed(views, i) <==> i == index || BlockUsed(old(views), i)
      ensures forall i: nat :: InodeUsed(views, i) <==> InodeUsed(old(views), i)
      ensures freeBlocksCount == (old(freeBlocksCount) - 1) % TWO_32
      ensures |views| == |old(views)| <==> SomeBlocks(old(views))
    {
      hide Grouped, NumBlockGroups, Balanced, BlockUsed, InodeUsed, FullWhereZero, BlocksUsedBelow;
      BalancedBounds(views, blocksCount, inodesCount);
      FullGroups();
      Tally(1, 0);
      var k := GroupForBlock();
      ghost var v := views;
      var pos := TakeBlockIn(k);
      assert pos > 0 ==> 0 in v[k].blocks;
      FirstFitBlocks(old(views), k, pos);
      BalancedBounds(views, blocksCount, inodesCount);
      index := k * TOTAL_BLOCKS_PER_GROUP + pos;
    }

    /** The super block's counters move before the outcome is known; the free counts wrap around zero. */
    method Tally(blocks: int, inodes: int)
      requires Grouped() && 0 <= blocksCount + blocks < TWO_32 && 0 <= inodesCount + inodes < TWO_32
      modifies this`blocksCount, this`inodesCount, this`freeBlocksCount, this`freeInodesCount
      ensures Grouped()
      ensures blocksCount == old(blocksCount) + blocks && inodesCount == old(inodesCount) + inodes
      ensures freeBlocksCount == (old(freeBlocksCount) - blocks) % TWO_32
      ensures freeInodesCount == (old(freeInodesCount) - inodes) % TWO_32
    {
      blocksCount := blocksCount + blocks;
      inodesCount := inodesCount + inodes;
      freeBlocksCount := (freeBlocksCount - blocks) % TWO_32;
      freeInodesCount := (freeInodesCount - inodes) % TWO_32;
    }

    /** The first group with a free block, or a new one. */
    method GroupForBlock() returns (k: nat)
      requires Grouped() && Balanced(views, blocksCount - 1, inodesCount) && (|views| < MAX_GROUPS || SomeBlocks(views))
      modifies this`groups, this`views, this`repr
      ensures Grouped() && Balanced(views, blocksCount - 1, inodesCount) && fresh(repr - old(repr))
      ensures k in groups && groups[k].freeBlocks > 0 && |views| <= |old(views)| + 1
      ensures k <= |old(views)| && forall j | 0 <= j < k :: old(views)[j].freeBlocks == 0
      ensures if k < |old(views)| then views == old(views) else views == old(views) + [EmptyView()]
      ensures forall i: nat :: BlockUsed(views, i) <==> BlockUsed(old(views), i)
      ensures forall i: nat :: InodeUsed(views, i) <==> InodeUsed(old(views), i)
      ensures |views| == |old(views)| <==> SomeBlocks(old(views))
    {
      hide Grouped, NumBlockGroups, Balanced, BlockUsed, InodeUsed;
      k := FirstWithBlocks();
      if k == |groups| {
        BlocksExhausted(views, blocksCount - 1, inodesCount);
        GroupAdded(views, blocksCount - 1, inodesCount);
        k := AllocBlockGroup();
      }
    }

    /** Allocates in group k the block that has been counted already. */
    method TakeBlockIn(k: nat) returns (pos: nat)
      requires Grouped() && Balanced(views, blocksCount - 1, inodesCount) && k in groups && groups[k].freeBlocks > 0
      modifies repr, this`views
      ensures Valid() && |views| == |old(views)| && k < |views| && pos < PER_GROUP
      ensures !BlockUsed(old(views), k * TOTAL_BLOCKS_PER_GROUP + pos)
      ensures forall p: nat | p < pos :: p in old(views)[k].blocks
      ensures forall i: nat :: BlockUsed(views, i) <==>
                i == k * TOTAL_BLOCKS_PER_GROUP + pos || BlockUsed(old(views), i)
      ensures forall i: nat :: InodeUsed(views, i) <==> InodeUsed(old(views), i)
    {
      hide NumBlockGroups, Balanced, BlockUsed, InodeUsed;
      assert Shows(groups[k], views[k]);
      ghost var v := views;
      pos := TakeBlock(k, groups[k]);
      BlockTakenBalanced(v, blocksCount - 1, inodesCount, k, pos);
    }

    lemma FullGroups()
      requires Grouped()
      ensures FullWhereZero(views)
    {
      forall q | 0 <= q < |views|
        ensures views[q].freeBlocks == 0 ==> forall p: nat | p < PER_GROUP :: p in views[q].blocks
        ensures views[q].freeInodes == 0 && !CountsShort(views[q]) ==>
                  forall p: nat | p < PER_GROUP :: p in views[q].inodes
      {
        assert Shows(groups[q], views[q]);
        FullSet(views[q].blocks, PER_GROUP);
        FullSet(views[q].inodes, PER_GROUP);
      }
    }

    lemma FirstGroupHides()
      requires Valid()
      ensures |views| > 0 && (views[0].freeInodes == 0 ==> HidesInode(views[0]))
    {
      assert Shows(groups[0], views[0]);
      FullSet(views[0].inodes, PER_GROUP);
    }

    /** A group has a free block, or another group can still be made. */
    method HasRoom() returns (room: bool)
      requires Grouped()
      ensures room <==> |views| < MAX_GROUPS || SomeBlocks(views)
    {
      hide Grouped;
      var k := FirstWithBlocks();
      room := |groups| < MAX_GROUPS || k < |groups|;
    }

    lemma InGroup(index: nat)
      requires Grouped() && BlockUsed(views, index)
      ensures index / TOTAL_BLOCKS_PER_GROUP < |views| && index % TOTAL_BLOCKS_PER_GROUP < PER_GROUP
    {
      assert Shows(groups[index / TOTAL_BLOCKS_PER_GROUP], views[index / TOTAL_BLOCKS_PER_GROUP]);
    }

    method FirstWithBlocks() returns (k: nat)
      requires Grouped()
      ensures k <= |groups| == |views|
      ensures forall j | 0 <= j < k :: views[j].freeBlocks == 0
      ensures k < |groups| ==> k in groups && groups[k].freeBlocks == views[k].freeBlocks > 0
    {
      GroupCount();
      k := 0;
      while k < |groups|
        invariant k <= |groups| && forall j | 0 <= j < k :: views[j].freeBlocks == 0
      {
        assert Shows(groups[k], views[k]);
        if groups[k].freeBlocks != 0 { return; }
        k := k + 1;
      }
    }

    lemma GroupCount()
      requires Grouped()
      ensures |groups| == |views|
    {
      assert groups.Keys == Below(|views|);
    }

    /** `alloc_inode`: as for blocks; the index of a new group is right because group 0 counts one inode short. */
    method AllocInode() returns (index: nat, newGroup: bool)
      requires Valid() && (|views| < MAX_GROUPS || SomeInodes(views))
      modifies this, repr
      ensures Valid() && fresh(repr - old(repr)) && |views| <= |old(views)| + 1
      ensures !InodeUsed(old(views), index) && index < PER_GROUP * MAX_GROUPS
      ensures InodesUsedBelow(old(views), index)
      ensures |old(views)| > 0 && (LeastInode(old(views), index) <==> old(views)[0].freeInodes > 0)
      ensures forall i: nat :: InodeUsed(views, i) <==> i == index || InodeUsed(old(views), i)
      ensures forall i: nat :: BlockUsed(views, i) <==> BlockUsed(old(views), i)
      ensures newGroup <==> !SomeInodes(old(views))
      ensures freeInodesCount == (old(freeInodesCount) - 1) % TWO_32
      ensures |views| == |old(views)| <==> SomeInodes(old(views))
    {
      hide Grouped, NumBlockGroups, Balanced, BlockUsed, InodeUsed, FullWhereZero, InodesUsedBelow, LeastInode;
      hide HidesInode;
      BalancedBounds(views, blocksCount, inodesCount);
      FullGroups();
      FirstGroupHides();
      Tally(0, 1);
      var k;
      k, newGroup := GroupForInode();
      ghost var v := views;
      var pos := TakeInodeIn(k);
      assert pos > 0 ==> 0 in v[k].inodes;
      FirstFitInodes(old(views), k, pos);
      LeastInodeExact(old(views), k, pos);
      BalancedBounds(views, blocksCount, inodesCount);
      index := k * PER_GROUP + pos;
    }

    method GroupForInode() returns (k: nat, newGroup: bool)
      requires Grouped() && Balanced(views, blocksCount, inodesCount - 1) && (|views| < MAX_GROUPS || SomeInodes(views))
      modifies this`groups, this`views, this`repr
      ensures Grouped() && Balanced(views, blocksCount, inodesCount - 1) && fresh(repr - old(repr))
      ensures k in groups && groups[k].freeInodes > 0 && |views| <= |old(views)| + 1
      ensures k <= |old(views)| && forall j | 0 <= j < k :: old(views)[j].freeInodes == 0
      ensures k < |old(views)| ==> old(views)[k].freeInodes > 0
      ensures if k < |old(views)| then views == old(views) else views == old(views) + [EmptyView()]
      ensures forall i: nat :: BlockUsed(views, i) <==> BlockUsed(old(views), i)
      ensures forall i: nat :: InodeUsed(views, i) <==> InodeUsed(old(views), i)
      ensures newGroup <==> !SomeInodes(old(views))
      ensures |views| == |old(views)| <==> SomeInodes(old(views))
    {
      hide Grouped, NumBlockGroups, Balanced, BlockUsed, InodeUsed;
      k := FirstWithInodes();
      newGroup := k == |groups|;
      if newGroup {
        InodesExhausted(views, blocksCount, inodesCount - 1);
        GroupAdded(views, blocksCount, inodesCount - 1);
        k := AllocBlockGroup();
      }
    }

    method FirstWithInodes() returns (k: nat)
      requires Grouped()
      ensures k <= |groups| == |views|
      ensures forall j | 0 <= j < k :: views[j].freeInodes == 0
      ensures k < |groups| ==> k in groups && groups[k].freeInodes == views[k].freeInodes > 0
    {
      GroupCount();
      k := 0;
      while k < |groups|
        invariant k <= |groups| && forall j | 0 <= j < k :: views[j].freeInodes == 0
      {
        assert Shows(groups[k], views[k]);
        if groups[k].freeInodes != 0 { return; }
        k := k + 1;
      }
    }

    method TakeInodeIn(k: nat) returns (pos: nat)
      requires Grouped() && Balanced(views, blocksCount, inodesCount - 1) && k in groups && groups[k].freeInodes > 0
      modifies repr, this`views
      ensures Valid() && |views| == |old(views)| && k < |views| && pos < PER_GROUP
      ensures !InodeUsed(old(views), k * PER_GROUP + pos)
      ensures forall p: nat | p < pos :: p in old(views)[k].inodes
      ensures forall i: nat :: InodeUsed(views, i) <==> i == k * PER_GROUP + pos || InodeUsed(old(views), i)
      ensures forall i: nat :: BlockUsed(views, i) <==> BlockUsed(old(views), i)
    {
      hide NumBlockGroups, Balanced, BlockUsed, InodeUsed;
      assert Shows(groups[k], views[k]);
      ghost var v := views;
      pos := TakeInode(k, groups[k]);
      InodeTakenBalanced(v, blocksCount, inodesCount - 1, k, pos);
    }

    /**
     * `free_block` on a number of an existing group.  The counters move first, so the books balance
     * afterwards exactly when the block was allocated.
     */
    method FreeBlock(index: nat) returns (ok: bool)
      requires Valid() && index / TOTAL_BLOCKS_PER_GROUP < |views| && index % TOTAL_BLOCKS_PER_GROUP < PER_GROUP
      modifies this, repr
      ensures Grouped() && |views| == |old(views)| && repr == old(repr)
      ensures ok <==> BlockUsed(old(views), index)
      ensures ok <==> Balanced(views, blocksCount, inodesCount)
      ensures forall i: nat :: BlockUsed(views, i) <==> i != index && BlockUsed(old(views), i)
      ensures forall i: nat :: InodeUsed(views, i) <==> InodeUsed(old(views), i)
    {
      hide Grouped, NumBlockGroups, Balanced, InodeUsed;
      BalancedBounds(views, blocksCount, inodesCount);
      ghost var v := views;
      Tally(-1, 0);
      var k: nat, pos: nat := index / TOTAL_BLOCKS_PER_GROUP, index % TOTAL_BLOCKS_PER_GROUP;
      HasGroup(k);
      ok := DropBlock(k, groups[k], pos);
      BlockDroppedBalanced(v, blocksCount + 1, inodesCount, k, pos);
    }

    lemma HasGroup(k: nat)
      requires Grouped() && k < |views|
      ensures k in groups && groups[k] in repr && groups[k].blockBitmap in repr && groups[k].inodeBitmap in repr
    {
      assert Shows(groups[k], views[k]);
    }

    method DropBlock(k: nat, g: BlockGroup, pos: nat) returns (ok: bool)
      requires Grouped() && k < |views| && k in groups && groups[k] == g && pos < PER_GROUP
      modifies g`freeBlocks, g.blockBitmap, this`views
      ensures Grouped()
      ensures ok <==> pos in old(views)[k].blocks
      ensures views == old(views)[k := BlockDropped(old(views)[k], pos)]
      ensures ok ==> views[k].freeBlocks <= PER_GROUP
    {
      hide SetBits;
      assert Shows(g, views[k]);
      ok := g.FreeBlock(pos);
      assert !ok ==> old(g.Blocks()) - {pos} == old(g.Blocks());
      assert g.View() == BlockDropped(old(g.View()), pos);
      views := views[k := g.View()];
      forall j | 0 <= j < |views| ensures Shows(groups[j], views[j]) {
        if j != k {
          assert old(Shows(groups[j], views[j])) && Apart(groups[j], groups[k]);
        }
      }
    }

    /** `free_inode` on a number of an existing group; the books balance afterwards exactly when it was allocated. */
    method FreeInode(index: nat) returns (ok: bool)
      requires Valid() && index / PER_GROUP < |views| && inodesCount > 0
      modifies this, repr
      ensures Grouped() && |views| == |old(views)| && repr == old(repr)
      ensures ok <==> InodeUsed(old(views), index)
      ensures ok <==> Balanced(views, blocksCount, inodesCount)
      ensures forall i: nat :: InodeUsed(views, i) <==> i != index && InodeUsed(old(views), i)
      ensures forall i: nat :: BlockUsed(views, i) <==> BlockUsed(old(views), i)
    {
      hide Grouped, NumBlockGroups, Balanced, BlockUsed;
      BalancedBounds(views, blocksCount, inodesCount);
      ghost var v := views;
      Tally(0, -1);
      var k: nat, pos: nat := index / PER_GROUP, index % PER_GROUP;
      HasGroup(k);
      ok := DropInode(k, groups[k], pos);
      InodeDroppedBalanced(v, blocksCount, inodesCount + 1, k, pos);
    }

    method DropInode(k: nat, g: BlockGroup, pos: nat) returns (ok: bool)
      requires Grouped() && k < |views| && k in groups && groups[k] == g && pos < PER_GROUP
      modifies g`freeInodes, g.inodeBitmap, this`views
      ensures Grouped()
      ensures ok <==> pos in old(views)[k].inodes
      ensures views == old(views)[k := InodeDropped(old(views)[k], pos)]
      ensures ok ==> views[k].freeInodes <= views[k].inodeQuota
    {
      hide SetBits;
      assert Shows(g, views[k]);
      ok := g.FreeInode(pos);
      assert !ok ==> old(g.Inodes()) - {pos} == old(g.Inodes());
      assert g.View() == InodeDropped(old(g.View()), pos);
      views := views[k := g.View()];
      forall j | 0 <= j < |views| ensures Shows(groups[j], views[j]) {
        if j != k {
          assert old(Shows(groups[j], views[j])) && Apart(groups[j], groups[k]);
        }
      }
    }
  }

  ghost function BlockDropped(v: GroupView, pos: nat): GroupView {
    if pos in v.blocks then v.(freeBlocks := v.freeBlocks + 1, blocks := v.blocks - {pos}) else v
  }

  ghost function InodeDropped(v: GroupView, pos: nat): GroupView {
    if pos in v.inodes then v.(freeInodes := v.freeInodes + 1, inodes := v.inodes - {pos}) else v
  }

  lemma InodeTakenBalanced(v: seq<GroupView>, blocksCount: int, inodesCount: int, k: nat, pos: nat)
    requires Balanced(v, blocksCount, inodesCount) && k < |v| && v[k].freeInodes > 0
    requires pos < PER_GROUP && pos !in v[k].inodes
    ensures var v', index := v[k := InodeTaken(v[k], pos)], k * PER_GROUP + pos;
            && Balanced(v', blocksCount, inodesCount + 1)
            && !InodeUsed(v, index)
            && (forall i: nat :: InodeUsed(v', i) <==> i == index || InodeUsed(v, i))
            && (forall i: nat :: BlockUsed(v', i) <==> BlockUsed(v, i))
  {
    FreeUpdate(v, k, InodeTaken(v[k], pos));
    GlobalIndex(k, pos);
  }

  lemma BlockDroppedBalanced(v: seq<GroupView>, blocksCount: int, inodesCount: int, k: nat, pos: nat)
    requires Balanced(v, blocksCount, inodesCount) && k < |v| && pos < PER_GROUP
    requires pos in v[k].blocks ==> v[k].freeBlocks < PER_GROUP
    ensures var v' := v[k := BlockDropped(v[k], pos)];
            && (Balanced(v', blocksCount - 1, inodesCount) <==> pos in v[k].blocks)
            && (forall i: nat :: BlockUsed(v', i) <==> i != k * TOTAL_BLOCKS_PER_GROUP + pos && BlockUsed(v, i))
            && (forall i: nat :: InodeUsed(v', i) <==> InodeUsed(v, i))
  {
    FreeUpdate(v, k, BlockDropped(v[k], pos));
    GlobalIndex(k, pos);
  }

  lemma InodeDroppedBalanced(v: seq<GroupView>, blocksCount: int, inodesCount: int, k: nat, pos: nat)
    requires Balanced(v, blocksCount, inodesCount) && k < |v| && pos < PER_GROUP
    requires pos in v[k].inodes ==> v[k].freeInodes < v[k].inodeQuota
    ensures var v' := v[k := InodeDropped(v[k], pos)];
            && (Balanced(v', blocksCount, inodesCount - 1) <==> pos in v[k].inodes)
            && (forall i: nat :: InodeUsed(v', i) <==> i != k * PER_GROUP + pos && InodeUsed(v, i))
            && (forall i: nat :: BlockUsed(v', i) <==> BlockUsed(v, i))
  {
    FreeUpdate(v, k, InodeDropped(v[k], pos));
    GlobalIndex(k, pos);
  }

  ghost function BlockTaken(v: GroupView, pos: nat): GroupView
    requires v.freeBlocks > 0
  {
    v.(freeBlocks := v.freeBlocks - 1, blocks := v.blocks + {pos})
  }

  ghost function InodeTaken(v: GroupView, pos: nat): GroupView
    requires v.freeInodes > 0
  {
    v.(freeInodes := v.freeInodes - 1, inodes := v.inodes + {pos})
  }
}
