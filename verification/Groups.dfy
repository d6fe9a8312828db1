/** Block groups and the super block: allocation of blocks and inodes (`src/block.cpp`, `src/filesystem.cpp`). */
module Groups {
  import opened Bytes
  import opened Bitmaps

  const PER_GROUP: nat := 32768                 // BLOCKS_PER_GROUP and INODES_PER_GROUP
  const TOTAL_BLOCKS_PER_GROUP: nat := 33794
  const BITMAP_WORDS: nat := 1024

  /** The positions of the set bits. */
  ghost function SetBits(words: seq<Word>): set<nat> {
    set i: nat | i < BITS * |words| && Has(words, i)
  }

  /** The numbers below n. */
  ghost function Below(n: nat): (r: set<nat>)
    ensures |r| == n && forall i: nat :: i in r <==> i < n
  {
    if n == 0 then {} else Below(n - 1) + {n - 1}
  }

  /** A set of numbers below n has n elements exactly when it has all of them. */
  lemma FullSet(s: set<nat>, n: nat)
    requires forall i | i in s :: i < n
    ensures |s| <= n
    ensures |s| == n <==> forall i | 0 <= i < n :: i in s
  {
    Fewer(s, Below(n));
    if forall i | 0 <= i < n :: i in s {
      assert s == Below(n);
    } else {
      SubsetSmaller(s, Below(n));
    }
  }

  lemma SubsetSmaller(a: set<nat>, b: set<nat>)
    requires a < b
    ensures |a| < |b|
  {
    var x :| x in b && x !in a;
    Fewer(a, b - {x});
  }

  datatype GroupView = GroupView(freeBlocks: nat, freeInodes: nat, blocks: set<nat>, inodes: set<nat>, inodeQuota: nat)

  class BlockGroup {
    const blockBitmap: array<Word>
    const inodeBitmap: array<Word>
    var freeBlocks: nat
    var freeInodes: nat
    /** How many inodes the free count of this group admits: one fewer than bits in group 0. */
    ghost const inodeQuota: nat

    /** A new group: zeroed bitmaps, all blocks free, and the given count of free inodes. */
    constructor (inodes: nat)
      requires inodes <= PER_GROUP
      ensures Valid() && freeBlocks == PER_GROUP && freeInodes == inodes == inodeQuota
      ensures Blocks() == {} && Inodes() == {} && fresh(Repr())
    {
      blockBitmap := new Word[BITMAP_WORDS](_ => 0);
      inodeBitmap := new Word[BITMAP_WORDS](_ => 0);
      freeBlocks := PER_GROUP;
      freeInodes := inodes;
      inodeQuota := inodes;
      new;
      NoBits(blockBitmap[..]);
      NoBits(inodeBitmap[..]);
    }

    ghost function Repr(): set<object> {
      {this, blockBitmap, inodeBitmap}
    }

    ghost function Blocks(): set<nat>
      reads blockBitmap
    {
      SetBits(blockBitmap[..])
    }

    ghost function Inodes(): set<nat>
      reads inodeBitmap
    {
      SetBits(inodeBitmap[..])
    }

    /** What the group has free and in use, as a value. */
    ghost function View(): GroupView
      reads this, blockBitmap, inodeBitmap
    {
      GroupView(freeBlocks, freeInodes, Blocks(), Inodes(), inodeQuota)
    }

    /** Free count plus set bits is constant, for blocks and for inodes. */
    ghost predicate Valid()
      reads this, blockBitmap, inodeBitmap
    {
      && blockBitmap.Length == BITMAP_WORDS && inodeBitmap.Length == BITMAP_WORDS && blockBitmap != inodeBitmap
      && freeBlocks + |Blocks()| == PER_GROUP
      && freeInodes + |Inodes()| == inodeQuota <= PER_GROUP
    }

    /** `alloc_block`: a nonzero free count guarantees success; the least free block is handed out. */
    method AllocBlock() returns (ok: bool, index: nat)
      requires Valid()
      modifies this`freeBlocks, blockBitmap
      ensures Valid()
      ensures ok <==> old(freeBlocks) > 0
      ensures ok ==> index < PER_GROUP && index !in old(Blocks()) && forall i: nat | i < index :: i in old(Blocks())
      ensures Blocks() == old(Blocks()) + if ok then {index} else {}
      ensures freeBlocks == old(freeBlocks) - if ok then 1 else 0
    {
      FullSet(Blocks(), PER_GROUP);
      ghost var before := blockBitmap[..];
      var r := Find(blockBitmap, BLOCK_SIZE * 8);
      if r == -1 {
        return false, 0;
      }
      Set(blockBitmap, r);
      assert Blocks() == old(Blocks()) + {r};
      freeBlocks := freeBlocks - 1;
      return true, r;
    }

    /** `alloc_inode`, which is only called on a group with a nonzero free count. */
    method AllocInode() returns (ok: bool, index: nat)
      requires Valid() && freeInodes > 0
      modifies this`freeInodes, inodeBitmap
      ensures Valid() && ok
      ensures index < PER_GROUP && index !in old(Inodes()) && forall i: nat | i < index :: i in old(Inodes())
      ensures Inodes() == old(Inodes()) + {index}
      ensures freeInodes == old(freeInodes) - 1
    {
      ok, index := false, 0;
      FullSet(Inodes(), PER_GROUP);
      var r := Find(inodeBitmap, BLOCK_SIZE * 8);
      if r == -1 { return; }
      Set(inodeBitmap, r);
      assert Inodes() == old(Inodes()) + {r};
      freeInodes := freeInodes - 1;
      return true, r;
    }

    /** `free_block`: only an allocated block is freed. */
    method FreeBlock(index: nat) returns (ok: bool)
      requires Valid() && index < PER_GROUP
      modifies this`freeBlocks, blockBitmap
      ensures Valid()
      ensures ok <==> index in old(Blocks())
      ensures Blocks() == old(Blocks()) - {index}
      ensures freeBlocks == old(freeBlocks) + if ok then 1 else 0
    {
      ok := Has(blockBitmap[..], index);
      if ok {
        Clear(blockBitmap, index);
        assert Blocks() == old(Blocks()) - {index};
        freeBlocks := freeBlocks + 1;
      }
    }

    /** `free_inode`: only an allocated inode is freed. */
    method FreeInode(index: nat) returns (ok: bool)
      requires Valid() && index < PER_GROUP
      modifies this`freeInodes, inodeBitmap
      ensures Valid()
      ensures ok <==> index in old(Inodes())
      ensures Inodes() == old(Inodes()) - {index}
      ensures freeInodes == old(freeInodes) + if ok then 1 else 0
    {
      ok := Has(inodeBitmap[..], index);
      if ok {
        Clear(inodeBitmap, index);
        assert Inodes() == old(Inodes()) - {index};
        freeInodes := freeInodes + 1;
      }
    }
  }

  lemma NoBits(words: seq<Word>)
    requires forall k | 0 <= k < |words| :: words[k] == 0
    ensures SetBits(words) == {}
  {
    forall i: nat | i < BITS * |words| ensures !Has(words, i) {
      ZeroBits(i % BITS);
    }
  }

  lemma {:induction false} ZeroBits(i: nat)
    ensures !Bit(0, i)
  {
    if i > 0 {
      ZeroBits(i - 1);
    }
  }
}
