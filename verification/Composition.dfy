/** The allocator behind the volume, and the block cache behind its contents. */
module Composition {
  import opened Bytes
  import opened Volume
  import opened Groups
  import opened Allocator
  import opened BlockCaches

  /** The allocated blocks of the volume are those whose bitmap bits are set. */
  ghost predicate SameBlocks(fs: FileSystem, sb: SuperBlock)
    reads fs`blocks, sb`views
  {
    forall b: nat :: b in fs.blocks <==> BlockUsed(sb.views, b)
  }

  /** Every smaller number of a data block is taken. */
  ghost predicate LeastFree(taken: set<Word>, index: nat) {
    forall j: Word | j < index && j % TOTAL_BLOCKS_PER_GROUP < PER_GROUP :: j in taken
  }

  /**
   * `alloc_block` of the super block does what the volume asks of it: the least number not in use,
   * with zero contents.
   */
  method AllocBlock(fs: FileSystem, sb: SuperBlock) returns (index: Word)
    requires sb.Valid() && fs !in sb.repr && SameBlocks(fs, sb) && (|sb.views| < MAX_GROUPS || SomeBlocks(sb.views))
    modifies fs`blocks, sb, sb.repr
    ensures sb.Valid() && fs !in sb.repr && SameBlocks(fs, sb) && fresh(sb.repr - old(sb.repr))
    ensures LeastFree(old(fs.blocks.Keys), index)
    ensures |sb.views| <= |old(sb.views)| + 1 && (|sb.views| == |old(sb.views)| <==> SomeBlocks(old(sb.views)))
    ensures index !in old(fs.blocks) && index < VOLUME_BLOCKS && fs.blocks == old(fs.blocks)[index := ZeroBlock()]
  {
    hide BlockUsed, InodeUsed, Balanced, SuperBlock.Grouped;
    index := sb.AllocBlock();
    assert forall j: Word :: j in fs.blocks <==> BlockUsed(old(sb.views), j);
    fs.blocks := fs.blocks[index := ZeroBlock()];
  }

  /** `free_block` of an allocated block likewise. */
  method FreeBlock(fs: FileSystem, sb: SuperBlock, index: Word) returns (ok: bool)
    requires sb.Valid() && fs !in sb.repr && SameBlocks(fs, sb)
    requires index / TOTAL_BLOCKS_PER_GROUP < |sb.views| && index % TOTAL_BLOCKS_PER_GROUP < PER_GROUP
    modifies fs`blocks, fs`dirty, sb, sb.repr
    ensures (ok <==> index in old(fs.blocks)) && fs.blocks == old(fs.blocks) - {index}
    ensures SameBlocks(fs, sb) && (ok ==> sb.Valid()) && sb.repr == old(sb.repr)
    ensures |sb.views| == |old(sb.views)|
  {
    hide BlockUsed, InodeUsed, Balanced, SuperBlock.Grouped;
    var freed := sb.FreeBlock(index);
    ok := fs.FreeBlock(index);
  }

  datatype Request = Take | Give(index: Word)

  /** One request on the set of allocated blocks: the least free number joins, or an allocated one leaves. */
  ghost predicate Served(a: set<Word>, req: Request, b: set<Word>) {
    match req
    case Take => exists i :: i !in a && b == a + {i} && LeastFree(a, i)
    case Give(i) => i in a && b == a - {i}
  }

  /** Allocations minus frees. */
  ghost function Net(reqs: seq<Request>): int {
    if reqs == [] then 0
    else Net(reqs[..|reqs| - 1]) + if reqs[|reqs| - 1].Take? then 1 else -1
  }

  lemma NetNext(reqs: seq<Request>, k: nat)
    requires k < |reqs|
    ensures Net(reqs[..k + 1]) == Net(reqs[..k]) + if reqs[k].Take? then 1 else -1
  {
    assert reqs[..k + 1][..k] == reqs[..k];
  }

  /** The request cannot be met: a block that is not allocated, or no free block in a volume of all groups. */
  ghost predicate Refused(fs: FileSystem, sb: SuperBlock, req: Request)
    reads fs`blocks, sb`views
  {
    match req
    case Take => |sb.views| >= MAX_GROUPS && !SomeBlocks(sb.views)
    case Give(i) => i !in fs.blocks
  }

  method ServeOne(fs: FileSystem, sb: SuperBlock, req: Request) returns (ok: bool)
    requires sb.Valid() && fs !in sb.repr && SameBlocks(fs, sb)
    modifies fs`blocks, fs`dirty, sb, sb.repr
    ensures sb.Valid() && fs !in sb.repr && SameBlocks(fs, sb) && fresh(sb.repr - old(sb.repr))
    ensures ok ==> Served(old(fs.blocks.Keys), req, fs.blocks.Keys)
    ensures ok ==> |fs.blocks.Keys| == |old(fs.blocks.Keys)| + if req.Take? then 1 else -1
    ensures !ok ==> Refused(fs, sb, req) && fs.blocks == old(fs.blocks)
  {
    hide BlockUsed, InodeUsed, Balanced, SuperBlock.Grouped;
    ghost var before := fs.blocks.Keys;
    if req.Take? {
      ok := sb.HasRoom();
      if !ok { return; }
      var index := AllocBlock(fs, sb);
      assert fs.blocks.Keys == before + {index};
    } else {
      ok := req.index in fs.blocks;
      if !ok { return; }
      sb.InGroup(req.index);
      var freed := FreeBlock(fs, sb, req.index);
      assert fs.blocks.Keys == before - {req.index};
    }
  }

  /**
   * Any run of allocations and frees keeps the bitmaps, the counters and the volume in agreement, and
   * the number of allocated blocks is that of the requests.  It ends early only at a refused request.
   */
  method Serve(fs: FileSystem, sb: SuperBlock, reqs: seq<Request>) returns (done: nat, ghost trace: seq<set<Word>>)
    requires sb.Valid() && fs !in sb.repr && SameBlocks(fs, sb)
    modifies fs`blocks, fs`dirty, sb, sb.repr
    ensures sb.Valid() && fs !in sb.repr && SameBlocks(fs, sb) && fresh(sb.repr - old(sb.repr))
    ensures done <= |reqs| && |trace| == done + 1 && trace[0] == old(fs.blocks.Keys) && trace[done] == fs.blocks.Keys
    ensures forall i | 0 <= i < done :: Served(trace[i], reqs[i], trace[i + 1])
    ensures |fs.blocks.Keys| == |old(fs.blocks.Keys)| + Net(reqs[..done])
    ensures done < |reqs| ==> Refused(fs, sb, reqs[done])
  {
    hide SameBlocks, SuperBlock.Valid, Served, Refused, Net;
    done, trace := 0, [fs.blocks.Keys];
    NetNone(reqs[..0]);
    while done < |reqs|
      invariant sb.Valid() && fs !in sb.repr && SameBlocks(fs, sb) && fresh(sb.repr - old(sb.repr))
      invariant done <= |reqs| && |trace| == done + 1 && trace[0] == old(fs.blocks.Keys)
                && trace[done] == fs.blocks.Keys
      invariant forall i | 0 <= i < done :: Served(trace[i], reqs[i], trace[i + 1])
      invariant |fs.blocks.Keys| == |old(fs.blocks.Keys)| + Net(reqs[..done])
    {
      NetNext(reqs, done);
      var ok := ServeOne(fs, sb, reqs[done]);
      if !ok { return; }
      done, trace := done + 1, trace + [fs.blocks.Keys];
    }
  }

  lemma NetNone(reqs: seq<Request>)
    requires reqs == []
    ensures Net(reqs) == 0
  {
  }

  /** Exactly these inode numbers are allocated. */
  ghost predicate SameInodes(taken: set<nat>, sb: SuperBlock)
    reads sb`views
  {
    forall x: nat :: x in taken <==> InodeUsed(sb.views, x)
  }

  /**
   * `alloc_inode`: a number that was free, and the least such exactly while group 0 counts a free inode;
   * the inode is left without its link exactly when no group had a free inode.
   */
  method AllocInode(sb: SuperBlock, ghost taken: set<nat>) returns (x: Word, newGroup: bool)
    requires sb.Valid() && SameInodes(taken, sb) && (|sb.views| < MAX_GROUPS || SomeInodes(sb.views))
    modifies sb, sb.repr
    ensures sb.Valid() && fresh(sb.repr - old(sb.repr)) && x !in taken && SameInodes(taken + {x as nat}, sb)
    ensures InodesUsedBelow(old(sb.views), x) && |old(sb.views)| > 0
    ensures (forall j: nat | j < x :: j in taken) <==> old(sb.views)[0].freeInodes > 0
    ensures newGroup <==> forall k | 0 <= k < |old(sb.views)| :: old(sb.views)[k].freeInodes == 0
  {
    hide BlockUsed, InodeUsed, Balanced, SuperBlock.Grouped;
    x, newGroup := sb.AllocInode();
    assert forall j: nat :: j in taken <==> InodeUsed(old(sb.views), j);
  }

  /** Storing a word of an indirect block is the four-byte change of the cached block that the cache laws speak of. */
  lemma WordIsEdit(s: State, k: Word, i: nat, w: Word)
    requires k in s.entries && i < WORDS_PER_BLOCK
    ensures Look(Edited(s, k, 4 * i, WordBytes(w), k), k) == PutWord(Look(s, k), i, w)
  {
    var b := Look(s, k);
    var x, y := PutBytes(b, 4 * i, WordBytes(w)), PutWord(b, i, w);
    forall j | 0 <= j < BLOCK_SIZE ensures x[j] == y[j] {
    }
    assert x == y;
  }
}
