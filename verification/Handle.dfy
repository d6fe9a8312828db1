/**
 * An open file handle and its position in the block map (`FileStatus` in `include/operation.h`).
 * `bf_seek` reads the tree from scratch; `seek` and `next_block` reuse cached indirect block numbers.
 */
module Handle {
  import opened Bytes
  import opened BlockTree
  import opened Volume

  /** Every indirect block on the way to p is allocated, so `get_block` finds it. */
  predicate Resolved(ib: Pointers, st: Store, p: Pos)
    decreases Height(p)
  {
    IsRoot(p) || (Resolved(ib, st, Parent(p)) && Loc(ib, st, Parent(p)) in st)
  }

  /** A position: the file block, its number and the cached indirect blocks of each level. */
  datatype Cursor = Cursor(n: Word, id: Word, i0: Word, i1: Word, i2: Word) {

    /** The cursor holds what a walk from the inode to block n finds. */
    ghost predicate Coherent(ib: Pointers, st: Store) {
      && n <= IBLOCK_14
      && Resolved(ib, st, Data(n))
      && id == Loc(ib, st, Data(n))
      && LiveIds(ib, st)
    }

    /** The indirect ids of the range that n is in. */
    ghost predicate LiveIds(ib: Pointers, st: Store)
      requires n <= IBLOCK_14
    {
      if n <= IBLOCK_11 then true
      else if n <= IBLOCK_12 then i0 == Loc(ib, st, Leaf(0))
      else if n <= IBLOCK_13 then i0 == Loc(ib, st, Dind) && i1 == Loc(ib, st, Parent(Data(n)))
      else
        && i0 == Loc(ib, st, Tind)
        && i1 == Loc(ib, st, TMid((n - TIND_START) / K2))
        && i2 == Loc(ib, st, Parent(Data(n)))
    }
  }

  // ---- the reader's arithmetic ----

  lemma DirectPath(ib: Pointers, st: Store, n: nat)
    requires n < DIRECT
    ensures Loc(ib, st, Data(n)) == ib[n] && Resolved(ib, st, Data(n))
  {
  }

  lemma SinglePath(ib: Pointers, st: Store, n: nat)
    requires DIRECT <= n <= IBLOCK_12
    ensures Loc(ib, st, Data(n)) == Rd(st, ib[IND_SLOT], n - DIRECT)
    ensures Resolved(ib, st, Data(n)) <==> ib[IND_SLOT] in st
    ensures Parent(Data(n)) == Leaf(0) && Loc(ib, st, Leaf(0)) == ib[IND_SLOT]
  {
  }

  lemma DoublePath(ib: Pointers, st: Store, n: nat, a: nat, b: nat)
    requires a < K && b < K && n == DIND_START + K * a + b
    ensures (n - DIND_START) / K == a && (n - DIND_START) % K == b
    ensures Parent(Data(n)) == Leaf(1 + a) && Loc(ib, st, Dind) == ib[DIND_SLOT]
    ensures Loc(ib, st, Leaf(1 + a)) == Rd(st, ib[DIND_SLOT], a)
    ensures Loc(ib, st, Data(n)) == Rd(st, Loc(ib, st, Leaf(1 + a)), b)
    ensures Resolved(ib, st, Data(n)) <==> ib[DIND_SLOT] in st && Loc(ib, st, Leaf(1 + a)) in st
  {
    DivModK(n - DIND_START, a, b);
    DivModK(n - DIRECT, 1 + a, b);
    assert Parent(Leaf(1 + a)) == Dind;
    assert Resolved(ib, st, Leaf(1 + a)) <==> ib[DIND_SLOT] in st;
  }

  lemma TriplePath(ib: Pointers, st: Store, n: nat, a: nat, b: nat, c: nat)
    requires a < K && b < K && c < K && n == TIND_START + K2 * a + K * b + c
    ensures Parent(Data(n)) == Leaf(1 + K + K * a + b) && Loc(ib, st, Tind) == ib[TIND_SLOT]
    ensures Loc(ib, st, TMid(a)) == Rd(st, ib[TIND_SLOT], a)
    ensures Loc(ib, st, Leaf(1 + K + K * a + b)) == Rd(st, Loc(ib, st, TMid(a)), b)
    ensures Loc(ib, st, Data(n)) == Rd(st, Loc(ib, st, Leaf(1 + K + K * a + b)), c)
    ensures Resolved(ib, st, Data(n)) <==>
              ib[TIND_SLOT] in st && Loc(ib, st, TMid(a)) in st && Loc(ib, st, Leaf(1 + K + K * a + b)) in st
  {
    TriplePlace(n, a, b, c);
    assert Resolved(ib, st, TMid(a)) <==> ib[TIND_SLOT] in st;
    assert Resolved(ib, st, Leaf(1 + K + K * a + b)) <==> ib[TIND_SLOT] in st && Loc(ib, st, TMid(a)) in st;
  }

  lemma TripleCursor(ib: Pointers, st: Store, x: Cursor, a: nat, b: nat, c: nat)
    requires a < K && b < K && c < K && x.n == TIND_START + K2 * a + K * b + c
    ensures x.n <= IBLOCK_14
    ensures x.LiveIds(ib, st) <==>
              x.i0 == ib[TIND_SLOT] && x.i1 == Loc(ib, st, TMid(a)) && x.i2 == Loc(ib, st, Leaf(1 + K + K * a + b))
  {
    TriplePath(ib, st, x.n, a, b, c);
    DivModK2(x.n - TIND_START, a, K * b + c);
  }

  /** Every block of a valid file can be reached. */
  lemma {:induction false} LiveResolved<F>(f: F, ib: Pointers, st: Store, n: nat, owner: map<Word, Owned<F>>, p: Pos)
    requires Tree(f, ib, st, LiveSet(n), owner) && p in LiveSet(n)
    ensures Resolved(ib, st, p)
    decreases Height(p)
  {
    if !IsRoot(p) {
      ParentLive(p, n);
      LiveResolved(f, ib, st, n, owner, Parent(p));
    }
  }

  /** The positions a cursor at block k looks at are all live. */
  lemma CursorLive(k: nat, n: nat)
    requires k < n && k <= IBLOCK_14
    ensures Data(k) in LiveSet(n)
    ensures k > IBLOCK_11 ==> Parent(Data(k)) in LiveSet(n) && Leaf(0) in LiveSet(n)
    ensures k > IBLOCK_12 ==> Dind in LiveSet(n)
    ensures k > IBLOCK_13 ==> Tind in LiveSet(n) && TMid((k - TIND_START) / K2) in LiveSet(n)
  {
    if k > IBLOCK_11 {
      ParentLive(Data(k), n);
    }
    if k > IBLOCK_13 {
      var a, b, c := TripleDigits(k);
    }
  }

  /** A coherent cursor stays coherent while the live positions of its file stay where they are. */
  lemma CursorKept<F>(f: F, g: Snap<F>, g': Snap<F>, n: nat, m: nat, x: Cursor)
    requires g'.Holds(f, LiveSet(m)) && x.n < n <= m
    requires forall p | p in LiveSet(n) :: g'.At(p) == g.At(p)
    requires x.Coherent(g.ib, g.st)
    ensures x.Coherent(g'.ib, g'.st)
  {
    hide Loc, Tree, Resolved, Live, Parent;
    CursorLive(x.n, n);
    CursorLive(x.n, m);
    LiveResolved(f, g'.ib, g'.st, m, g'.owner, Data(x.n));
    if x.n > IBLOCK_13 {
      assert g'.At(TMid((x.n - TIND_START) / K2)) == g.At(TMid((x.n - TIND_START) / K2));
      assert g'.At(Tind) == g.At(Tind);
    }
    if x.n > IBLOCK_11 {
      assert g'.At(Parent(Data(x.n))) == g.At(Parent(Data(x.n)));
      assert g'.At(Leaf(0)) == g.At(Leaf(0));
    }
    assert g'.At(Data(x.n)) == g.At(Data(x.n));
    if x.n > IBLOCK_12 {
      assert g'.At(Dind) == g.At(Dind);
    }
  }

  /** Two cursors at one block hold the same number and the same ids of its range. */
  ghost predicate SamePlace(x: Cursor, y: Cursor) {
    && x.n == y.n && x.id == y.id
    && (x.n > IBLOCK_11 ==> x.i0 == y.i0)
    && (x.n > IBLOCK_12 ==> x.i1 == y.i1)
    && (x.n > IBLOCK_13 ==> x.i2 == y.i2)
  }

  /** Coherent cursors at the same block are at the same place: what `bf_seek` finds is all there is. */
  lemma CoherentUnique(ib: Pointers, st: Store, x: Cursor, y: Cursor)
    requires x.Coherent(ib, st) && y.Coherent(ib, st) && x.n == y.n
    ensures SamePlace(x, y)
  {
  }

  datatype Status = Ok | EINVAL

  class FileStatus {
    const fs: FileSystem
    const inode: Inode
    var cacheUpdateFlag: bool
    var blockId: Word
    var blockIdInFile: Word
    var ind0: Word
    var ind1: Word
    var ind2: Word

    constructor (fs: FileSystem, inode: Inode)
      ensures this.fs == fs && this.inode == inode
      ensures cacheUpdateFlag && Pos() == Cursor(0, 0, 0, 0, 0)
    {
      this.fs := fs;
      this.inode := inode;
      cacheUpdateFlag := true;
      blockId, blockIdInFile, ind0, ind1, ind2 := 0, 0, 0, 0, 0;
    }

    ghost function Pos(): Cursor
      reads this
    {
      Cursor(blockIdInFile, blockId, ind0, ind1, ind2)
    }

    ghost predicate Coherent()
      reads this, fs, inode
    {
      Pos().Coherent(inode.block, fs.blocks)
    }

    /** `bf_seek`: succeeds exactly when block n is within the tree and its path is allocated. */
    method BfSeek(n: Word) returns (err: Status)
      modifies this`blockId, this`blockIdInFile, this`ind0, this`ind1, this`ind2
      ensures blockIdInFile == n
      ensures err.Ok? <==> n <= IBLOCK_14 && Resolved(inode.block, fs.blocks, Data(n))
      ensures err.Ok? ==> Coherent()
    {
      hide Loc, Resolved;
      blockIdInFile := n;
      if n <= IBLOCK_11 {
        DirectPath(inode.block, fs.blocks, n);
        blockId := inode.block[n];
      } else if n <= IBLOCK_12 {
        SinglePath(inode.block, fs.blocks, n);
        var first := n - IBLOCK_11 - 1;
        ind0 := inode.block[IND_SLOT];
        if ind0 !in fs.blocks { return EINVAL; }
        blockId := GetWord(fs.blocks[ind0], first);
      } else if n <= IBLOCK_13 {
        var first, second := (n - IBLOCK_12 - 1) / K, (n - IBLOCK_12 - 1) % K;
        DoublePath(inode.block, fs.blocks, n, first, second);
        ind0 := inode.block[DIND_SLOT];
        if ind0 !in fs.blocks { return EINVAL; }
        ind1 := GetWord(fs.blocks[ind0], first);
        if ind1 !in fs.blocks { return EINVAL; }
        blockId := GetWord(fs.blocks[ind1], second);
      } else if n <= IBLOCK_14 {
        ghost var a, b, c := TripleDigits(n);
        TriplePath(inode.block, fs.blocks, n, a, b, c);
        var first, second, third := (n - IBLOCK_13 - 1) / K2, (n - IBLOCK_13 - 1) % K2 / K, (n - IBLOCK_13 - 1) % K;
        ind0 := inode.block[TIND_SLOT];
        if ind0 !in fs.blocks { return EINVAL; }
        ind1 := GetWord(fs.blocks[ind0], first);
        if ind1 !in fs.blocks { return EINVAL; }
        ind2 := GetWord(fs.blocks[ind1], second);
        if ind2 !in fs.blocks { return EINVAL; }
        blockId := GetWord(fs.blocks[ind2], third);
      } else {
        return EINVAL;
      }
      err := Ok;
    }

    /** `_upd_cache`: a handle flagged by another writer re-reads its position. */
    method UpdCache() returns (err: Status)
      modifies this
      ensures blockIdInFile == old(blockIdInFile)
      ensures !old(cacheUpdateFlag) ==> err.Ok? && Pos() == old(Pos()) && !cacheUpdateFlag
      ensures old(cacheUpdateFlag) ==>
                && !cacheUpdateFlag
                && (err.Ok? <==> blockIdInFile <= IBLOCK_14 && Resolved(inode.block, fs.blocks, Data(blockIdInFile)))
                && (err.Ok? ==> Coherent())
    {
      err := Ok;
      if cacheUpdateFlag {
        cacheUpdateFlag := false;
        err := BfSeek(blockIdInFile);
      }
    }

    /**
     * `next_block`: from a coherent position, one step lands on the coherent position of the next
     * block, across every change of level.  At the last block of the tree it would read past the
     * end of the triple root, so that one position is excluded.
     */
    method NextBlock() returns (err: Status)
      requires blockIdInFile <= IBLOCK_14 ==> Coherent() && blockIdInFile < IBLOCK_14
      modifies this`blockId, this`blockIdInFile, this`ind0, this`ind1, this`ind2
      ensures old(blockIdInFile) > IBLOCK_14 ==> err.EINVAL? && Pos() == old(Pos())
      ensures old(blockIdInFile) < IBLOCK_14 ==>
                && blockIdInFile == old(blockIdInFile) + 1
                && (err.Ok? <==> Resolved(inode.block, fs.blocks, Data(blockIdInFile)))
                && (err.Ok? ==> Coherent())
    {
      if blockIdInFile <= IBLOCK_12 {
        err := NextLow();
      } else if blockIdInFile <= IBLOCK_13 {
        err := NextDouble();
      } else if blockIdInFile <= IBLOCK_14 {
        err := NextTriple();
      } else {
        err := EINVAL;
      }
    }

    /** `next_block` from the direct and single-indirect ranges. */
    method NextLow() returns (err: Status)
      requires Coherent() && blockIdInFile <= IBLOCK_12
      modifies this`blockId, this`blockIdInFile, this`ind0, this`ind1
      ensures blockIdInFile == old(blockIdInFile) + 1
      ensures err.Ok? <==> Resolved(inode.block, fs.blocks, Data(blockIdInFile))
      ensures err.Ok? ==> Coherent()
    {
      hide Loc, Resolved;
      ghost var ib, st := inode.block, fs.blocks;
      var n := blockIdInFile + 1;
      blockIdInFile := n;
      if n <= IBLOCK_11 {
        DirectPath(ib, st, n);
        blockId := inode.block[n];
      } else if n == DIRECT {
        SinglePath(ib, st, n);
        ind0 := inode.block[IND_SLOT];
        if ind0 !in fs.blocks { return EINVAL; }
        blockId := GetWord(fs.blocks[ind0], 0);
      } else if n <= IBLOCK_12 {
        SinglePath(ib, st, n - 1);
        SinglePath(ib, st, n);
        if ind0 !in fs.blocks { return EINVAL; }
        blockId := GetWord(fs.blocks[ind0], n - IBLOCK_11 - 1);
      } else {
        DoublePath(ib, st, n, 0, 0);
        ind0 := inode.block[DIND_SLOT];
        if ind0 !in fs.blocks { return EINVAL; }
        ind1 := GetWord(fs.blocks[ind0], 0);
        if ind1 !in fs.blocks { return EINVAL; }
        blockId := GetWord(fs.blocks[ind1], 0);
      }
      err := Ok;
    }

    /** `next_block` from the double-indirect range. */
    method NextDouble() returns (err: Status)
      requires Coherent() && IBLOCK_12 < blockIdInFile <= IBLOCK_13
      modifies this`blockId, this`blockIdInFile, this`ind0, this`ind1, this`ind2
      ensures blockIdInFile == old(blockIdInFile) + 1
      ensures err.Ok? <==> Resolved(inode.block, fs.blocks, Data(blockIdInFile))
      ensures err.Ok? ==> Coherent()
    {
      hide Loc, Resolved;
      ghost var ib, st := inode.block, fs.blocks;
      var n := blockIdInFile + 1;
      ghost var a, b := (blockIdInFile - DIND_START) / K, (blockIdInFile - DIND_START) % K;
      DoublePath(ib, st, blockIdInFile, a, b);
      blockIdInFile := n;
      if n <= IBLOCK_13 {
        var first, second := (n - IBLOCK_12 - 1) / K, (n - IBLOCK_12 - 1) % K;
        DoublePath(ib, st, n, first, second);
        if second == 0 {
          if ind0 !in fs.blocks { return EINVAL; }
          ind1 := GetWord(fs.blocks[ind0], first);
          if ind1 !in fs.blocks { return EINVAL; }
          blockId := GetWord(fs.blocks[ind1], 0);
        } else {
          DivModK(n - 1 - DIND_START, first, second - 1);
          if ind1 !in fs.blocks { return EINVAL; }
          blockId := GetWord(fs.blocks[ind1], second);
        }
      } else {
        err := EnterTriple();
        return;
      }
      err := Ok;
    }

    /** `next_block` onto the first block of the triple-indirect range. */
    method EnterTriple() returns (err: Status)
      requires blockIdInFile == TIND_START
      modifies this`blockId, this`ind0, this`ind1, this`ind2
      ensures err.Ok? <==> Resolved(inode.block, fs.blocks, Data(blockIdInFile))
      ensures err.Ok? ==> Coherent()
    {
      hide Loc, Resolved;
      TriplePath(inode.block, fs.blocks, blockIdInFile, 0, 0, 0);
      ind0 := inode.block[TIND_SLOT];
      if ind0 !in fs.blocks { return EINVAL; }
      ind1 := GetWord(fs.blocks[ind0], 0);
      if ind1 !in fs.blocks { return EINVAL; }
      ind2 := GetWord(fs.blocks[ind1], 0);
      if ind2 !in fs.blocks { return EINVAL; }
      blockId := GetWord(fs.blocks[ind2], 0);
      err := Ok;
    }

    /** `next_block` from the triple-indirect range. */
    method NextTriple() returns (err: Status)
      requires Coherent() && IBLOCK_13 < blockIdInFile < IBLOCK_14
      modifies this`blockId, this`blockIdInFile, this`ind1, this`ind2
      ensures blockIdInFile == old(blockIdInFile) + 1
      ensures err.Ok? <==> Resolved(inode.block, fs.blocks, Data(blockIdInFile))
      ensures err.Ok? ==> Coherent()
    {
      hide Loc, Resolved, Parent, Cursor.LiveIds;
      ghost var ib, st := inode.block, fs.blocks;
      var n := blockIdInFile + 1;
      ghost var a, b, c := TripleDigits(blockIdInFile);
      TriplePath(ib, st, blockIdInFile, a, b, c);
      ghost var a', b', c' := TripleDigits(n);
      TriplePath(ib, st, n, a', b', c');
      DigitsStep(a, b, c, a', b', c');
      TripleCursor(ib, st, Pos(), a, b, c);
      blockIdInFile := n;
      var first, second, third := (n - IBLOCK_13 - 1) / K2, (n - IBLOCK_13 - 1) % K2 / K, (n - IBLOCK_13 - 1) % K;
      if third == 0 {
        if second == 0 {
          if ind0 !in fs.blocks { return EINVAL; }
          ind1 := GetWord(fs.blocks[ind0], first);
        }
        if ind1 !in fs.blocks { return EINVAL; }
        ind2 := GetWord(fs.blocks[ind1], second);
      }
      if ind2 !in fs.blocks { return EINVAL; }
      blockId := GetWord(fs.blocks[ind2], third);
      TripleCursor(ib, st, Pos(), a', b', c');
      err := Ok;
    }

    /**
     * Any number of steps: they succeed exactly when every block on the way can be reached, and land
     * where `bf_seek` lands.
     */
    method Advance(k: nat) returns (err: Status)
      requires Coherent() && blockIdInFile + k <= IBLOCK_14
      modifies this`blockId, this`blockIdInFile, this`ind0, this`ind1, this`ind2
      ensures err.Ok? <==> forall j | old(blockIdInFile) < j <= old(blockIdInFile) + k ::
                Resolved(inode.block, fs.blocks, Data(j))
      ensures err.Ok? ==> blockIdInFile == old(blockIdInFile) + k && Coherent()
      ensures err.Ok? ==> forall x: Cursor | x.n == blockIdInFile && x.Coherent(inode.block, fs.blocks) ::
                SamePlace(x, Pos())
    {
      hide Loc, Resolved, Cursor.LiveIds;
      err := Ok;
      for i := 0 to k
        invariant err.Ok? && blockIdInFile == old(blockIdInFile) + i && Coherent()
        invariant forall j | old(blockIdInFile) < j <= blockIdInFile :: Resolved(inode.block, fs.blocks, Data(j))
      {
        err := NextBlock();
        if err.EINVAL? { return; }
      }
      forall x: Cursor | x.n == blockIdInFile && x.Coherent(inode.block, fs.blocks) ensures SamePlace(x, Pos()) {
        CoherentUnique(inode.block, fs.blocks, x, Pos());
      }
    }

    /** What `seek` may rely on: in the ranges where it reuses ids, they are right. */
    ghost predicate Usable()
      reads this, fs, inode
    {
      IBLOCK_12 < blockIdInFile <= IBLOCK_14 ==> Coherent()
    }

    /**
     * `seek`: agrees with `bf_seek` for every target up to IBLOCK_13, except that the error of a
     * low target is dropped.  In the triple range it lands on `SeekLands`, and beyond the tree it
     * reports success and does nothing.
     */
    method Seek(t: Word) returns (err: Status)
      requires Usable()
      modifies this`blockId, this`blockIdInFile, this`ind0, this`ind1, this`ind2
      ensures t <= IBLOCK_14 ==> blockIdInFile == t
      ensures t <= IBLOCK_12 ==> err.Ok? && (Resolved(inode.block, fs.blocks, Data(t)) ==> Coherent())
      ensures IBLOCK_12 < t <= IBLOCK_14 ==> (err.Ok? <==> Resolved(inode.block, fs.blocks, Data(t)))
      ensures IBLOCK_12 < t <= IBLOCK_13 && err.Ok? ==> Coherent()
      ensures IBLOCK_13 < t <= IBLOCK_14 && err.Ok? ==>
                && Pos().LiveIds(inode.block, fs.blocks)
                && blockId == Loc(inode.block, fs.blocks, Data(SeekLands(old(blockIdInFile), t)))
      ensures t > IBLOCK_14 ==> err.Ok? && Pos() == old(Pos())
    {
      hide Loc, Resolved;
      err := Ok;
      if t <= IBLOCK_12 {
        var _ := BfSeek(t);
      } else if t <= IBLOCK_13 {
        err := SeekDouble(t);
      } else if t <= IBLOCK_14 {
        err := SeekTriple(t);
      }
    }

    method SeekDouble(t: Word) returns (err: Status)
      requires Usable() && IBLOCK_12 < t <= IBLOCK_13
      modifies this`blockId, this`blockIdInFile, this`ind0, this`ind1, this`ind2
      ensures blockIdInFile == t
      ensures err.Ok? <==> Resolved(inode.block, fs.blocks, Data(t))
      ensures err.Ok? ==> Coherent()
    {
      hide Loc, Resolved;
      ghost var ib, st, o := inode.block, fs.blocks, blockIdInFile;
      var old0 := (blockIdInFile - IBLOCK_12 - 1) % TWO_32;
      var oldFirst, oldSecond := old0 / K, old0 % K;
      var newFirst, newSecond := (t - IBLOCK_12 - 1) / K, (t - IBLOCK_12 - 1) % K;
      DoublePath(ib, st, t, newFirst, newSecond);
      blockIdInFile := t;
      if newFirst == oldFirst {
        assert DIND_START <= o <= IBLOCK_13 && old0 == o - DIND_START;
        DoublePath(ib, st, o, oldFirst, oldSecond);
        if newSecond == oldSecond {
          return Ok;
        }
        if ind1 !in fs.blocks { return EINVAL; }
        blockId := GetWord(fs.blocks[ind1], newSecond);
        err := Ok;
      } else {
        err := BfSeek(t);
      }
    }

    /** The target is under the same second-level block: its leaf is read if another, and one word of the leaf. */
    method SeekNear(oldSecond: nat, oldThird: nat, newSecond: nat, newThird: nat, ghost a: nat) returns (err: Status)
      requires a < K && oldSecond < K && newSecond < K
      requires var mid, leaf := Loc(inode.block, fs.blocks, TMid(a)),
                                Loc(inode.block, fs.blocks, Leaf(1 + K + K * a + oldSecond));
               ind1 == mid && ind2 == leaf == Rd(fs.blocks, mid, oldSecond) && mid in fs.blocks && leaf in fs.blocks
      modifies this`blockId, this`ind2
      ensures newSecond == oldSecond && newThird == oldThird ==> err.Ok? && Pos() == old(Pos())
      ensures newSecond != oldSecond || newThird != oldThird ==>
                var leaf := Rd(fs.blocks, ind1, newSecond);
                && (err.Ok? <==> leaf in fs.blocks)
                && (err.Ok? ==> ind2 == leaf && blockId == Rd(fs.blocks, leaf, newSecond))
    {
      hide Loc;
      if newSecond == oldSecond && newThird == oldThird {
        return Ok;
      }
      if newSecond != oldSecond {
        if ind1 !in fs.blocks { return EINVAL; }
        ind2 := GetWord(fs.blocks[ind1], newSecond);
      }
      if ind2 !in fs.blocks { return EINVAL; }
      blockId := GetWord(fs.blocks[ind2], newSecond);
      err := Ok;
    }

    method SeekTriple(t: Word) returns (err: Status)
      requires Usable() && IBLOCK_13 < t <= IBLOCK_14
      modifies this`blockId, this`blockIdInFile, this`ind0, this`ind1, this`ind2
      ensures blockIdInFile == t
      ensures err.Ok? <==> Resolved(inode.block, fs.blocks, Data(t))
      ensures err.Ok? ==>
                && Pos().LiveIds(inode.block, fs.blocks)
                && blockId == Loc(inode.block, fs.blocks, Data(SeekLands(old(blockIdInFile), t)))
    {
      hide Loc, Resolved, Parent, Cursor.LiveIds, SeekLands;
      ghost var ib, st, o := inode.block, fs.blocks, blockIdInFile;
      var old0 := (blockIdInFile - IBLOCK_13 - 1) % TWO_32;
      var oldFirst, oldSecond, oldThird := old0 / K2, old0 % K2 / K, old0 % K;
      var newFirst, newSecond, newThird := (t - IBLOCK_13 - 1) / K2, (t - IBLOCK_13 - 1) % K2 / K,
          (t - IBLOCK_13 - 1) % K;
      ghost var a, b, c := TripleDigits(t);
      assert a == newFirst && b == newSecond && c == newThird;
      TriplePath(ib, st, t, a, b, c);
      TriplePath(ib, st, TIND_START + K2 * a + K * b + b, a, b, b);
      SeekLandsOn(o, t, a, b, c);
      blockIdInFile := t;
      if newFirst == oldFirst {
        WrapOutside(o);
        ghost var oa, ob, oc := TripleDigits(o);
        assert oa == a && ob == oldSecond && oc == oldThird && (o == t <==> ob == b && oc == c);
        TripleCursor(ib, st, old(Pos()), oa, ob, oc);
        TriplePath(ib, st, o, oa, ob, oc);
        err := SeekNear(oldSecond, oldThird, newSecond, newThird, a);
        TripleCursor(ib, st, Pos(), a, b, c);
      } else {
        err := BfSeek(t);
      }
    }
  }

  /** The 32-bit difference to the start of the triple range has a first digit below K only for blocks in that range. */
  lemma WrapOutside(o: Word)
    requires (o - TIND_START) % TWO_32 / K2 < K
    ensures TIND_START <= o <= IBLOCK_14 && (o - TIND_START) % TWO_32 == o - TIND_START
  {
    assert (o - TIND_START) % TWO_32 == if o < TIND_START then o - TIND_START + TWO_32 else o - TIND_START;
  }

  lemma SeekLandsOn(o: Word, t: Word, a: nat, b: nat, c: nat)
    requires a < K && b < K && c < K && t == TIND_START + K2 * a + K * b + c
    ensures TIND_START <= t <= IBLOCK_14
    ensures (o - TIND_START) % TWO_32 / K2 != a || o == t ==> SeekLands(o, t) == t
    ensures (o - TIND_START) % TWO_32 / K2 == a && o != t ==> SeekLands(o, t) == TIND_START + K2 * a + K * b + b
  {
    DivModK2(t - TIND_START, a, K * b + c);
    DivModK(K * b + c, b, c);
    if (o - TIND_START) % TWO_32 / K2 == a {
      WrapOutside(o);
    }
  }

  lemma DigitsStep(a: nat, b: nat, c: nat, a': nat, b': nat, c': nat)
    requires a < K && b < K && c < K && a' < K && b' < K && c' < K
    requires K2 * a' + K * b' + c' == K2 * a + K * b + c + 1
    ensures c' != 0 ==> a' == a && b' == b && c' == c + 1
    ensures c' == 0 && b' != 0 ==> a' == a && b' == b + 1
  {
  }

  /**
   * The block whose number `seek` reads for target t in the triple range, coming from block o: when o
   * is under the same second-level block, the last index is taken from the middle digit of t.
   */
  function SeekLands(o: nat, t: nat): nat
    requires TIND_START <= t <= IBLOCK_14
  {
    var a, b := (t - TIND_START) / K2, (t - TIND_START) % K2 / K;
    if TIND_START <= o <= IBLOCK_14 && (o - TIND_START) / K2 == a && o != t then TIND_START + K2 * a + K * b + b else t
  }

  /** `seek` re-reads the path to t, stays where it is, or the last two digits of t agree. */
  predicate SeekRight(o: nat, t: nat)
    requires TIND_START <= t <= IBLOCK_14
  {
    || !(TIND_START <= o <= IBLOCK_14)
    || (o - TIND_START) / K2 != (t - TIND_START) / K2
    || o == t
    || (t - TIND_START) % K2 / K == (t - TIND_START) % K
  }

  /** In the triple range `seek` reads the slot of the target exactly then, whatever the file holds. */
  lemma SeekLandsExact(o: nat, t: nat)
    requires TIND_START <= t <= IBLOCK_14
    ensures SeekLands(o, t) == t <==> SeekRight(o, t)
  {
    var a, b, c := TripleDigits(t);
  }

  lemma SeekLandsBelow(o: nat, t: nat)
    requires TIND_START <= t <= IBLOCK_14
    ensures SeekLands(o, t) < TREE_CAPACITY
  {
    var a, b, c := TripleDigits(t);
  }

  lemma DataApart<F>(f: F, g: Snap<F>, m: nat, j: nat, k: nat)
    requires g.Holds(f, LiveSet(m)) && j < m && k < m && j < TREE_CAPACITY && k < TREE_CAPACITY
    ensures g.At(Data(j)) == g.At(Data(k)) <==> j == k
  {
    hide Loc;
    assert Data(j) in LiveSet(m) && Data(k) in LiveSet(m);
  }

  /** And where it lands within the file, it finds the right block exactly then. */
  lemma SeekTripleExact<F>(f: F, g: Snap<F>, m: nat, o: nat, t: nat)
    requires g.Holds(f, LiveSet(m)) && TIND_START <= t <= IBLOCK_14 && t < m && SeekLands(o, t) < m
    ensures g.At(Data(SeekLands(o, t))) == g.At(Data(t)) <==> SeekRight(o, t)
  {
    hide SeekLands, SeekRight, Snap.Holds, Snap.At;
    SeekLandsExact(o, t);
    SeekLandsBelow(o, t);
    DataApart(f, g, m, SeekLands(o, t), t);
  }

  /** The smallest failure: one step forward from the first block of the triple range reads that block again. */
  lemma SeekTripleFails()
    ensures SeekLands(TIND_START, TIND_START + 1) == TIND_START
  {
  }
}
