/**
 * An open inode with all its handles (`InodeCache`), and the byte-level operations of a handle:
 * `copy_to_buf` and the two phases of `write` (`src/operation/operation.cpp`).
 */
module OpenFiles {
  import opened Bytes
  import opened BlockTree
  import opened Volume
  import opened Handle
  import opened FileBytes

  /** The start of the last block of the 32-bit size range. */
  const LAST_BLOCK: nat := 0xFFFF_F000

  /** `i_size + BLOCK_SIZE - i_size % BLOCK_SIZE` in 32-bit arithmetic. */
  function NextBoundary(size: Word): Word {
    (size + BLOCK_SIZE - size % BLOCK_SIZE) % TWO_32
  }

  /** The boundary is above the size exactly when the size is not in the last block of the 32-bit range. */
  lemma NextBoundaryAbove(size: Word)
    ensures NextBoundary(size) > size <==> size < LAST_BLOCK
    ensures size < LAST_BLOCK ==> NextBoundary(size) % BLOCK_SIZE == 0 && NextBoundary(size) <= size + BLOCK_SIZE
    ensures size >= LAST_BLOCK ==> NextBoundary(size) == 0
  {
  }

  datatype Outcome =
    | Wrote(n: nat)      // n bytes of the buffer are in the file
    | NoSpace            // allocation failed before the first byte
    | Stray              // the target block is not in the file: the source writes to an unrelated block

  class OpenFile {
    const fs: FileSystem
    const inode: Inode
    var handles: seq<FileStatus>

    /** Opening an inode whose blocks cover its size. */
    constructor (fs: FileSystem, inode: Inode)
      requires fs.Valid() && inode in fs.files
      requires inode.iSize <= BLOCK_SIZE * inode.Count() && Covered(Flat(fs.Contents(inode)), inode.iSize)
      ensures this.fs == fs && this.inode == inode && handles == []
      ensures Valid()
    {
      this.fs := fs;
      this.inode := inode;
      handles := [];
    }

    /** `upd_cache(fd)`: a new handle joins the list, flagged to read its position first. */
    method NewHandle() returns (h: FileStatus)
      requires Valid()
      modifies this`handles
      ensures Valid() && fresh(h) && handles == [h] + old(handles) && Bytes() == old(Bytes())
      ensures h.cacheUpdateFlag && h.blockIdInFile == 0
    {
      h := new FileStatus(fs, inode);
      handles := [h] + handles;
    }

    ghost function Room(): seq<Byte>
      reads this, fs, inode
    {
      Flat(fs.Contents(inode))
    }

    /** The bytes of the file. */
    ghost function Bytes(): seq<Byte>
      requires inode.iSize <= |Room()|
      reads this, fs, inode
    {
      Room()[..inode.iSize]
    }

    /** A handle stands on a block of the file, or at the start of an empty one, with usable ids. */
    ghost predicate HandleOk(h: FileStatus)
      reads this, fs, inode, h
    {
      && h.fs == fs && h.inode == inode
      && (h.blockIdInFile < inode.Count() || h.blockIdInFile == 0)
      && (h.blockIdInFile > IBLOCK_12 ==> h.Pos().Coherent(inode.block, fs.blocks))
    }

    ghost predicate Open()
      reads this, fs, fs.files, inode, handles
    {
      && fs.Valid() && inode in fs.files
      && forall h | h in handles :: HandleOk(h)
    }

    /** The blocks cover the size, bytes beyond it are zero, and every handle is in order. */
    ghost predicate Valid()
      reads this, fs, fs.files, inode, handles
    {
      && Open()
      && inode.iSize <= BLOCK_SIZE * inode.Count()
      && Covered(Room(), inode.iSize)
    }

    /** `alloc_block` for this inode: one more zero block at the end. */
    method Append() returns (ok: bool)
      requires Open()
      modifies fs`blocks, fs`dirty, fs`owner, fs`refused, inode`block, inode`iBlocks
      ensures Open() && fs.refused == old(fs.refused) + if ok then 0 else 1
      ensures inode.Count() == old(inode.Count()) + if ok then 1 else 0
      ensures Room() == old(Room()) + if ok then Zeros(BLOCK_SIZE) else []
      ensures forall h | h in handles && old(h.Coherent()) && h.blockIdInFile < old(inode.Count()) :: h.Coherent()
    {
      hide Tree, LiveSet, Cursor.LiveIds, Marks, TripleEntry;
      ghost var c, g, n := fs.Contents(inode), fs.SnapOf(inode), inode.Count();
      var index;
      ok, index := fs.AppendBlock(inode);
      FlatGrow(c);
      forall h | h in handles && old(h.Coherent()) && h.blockIdInFile < n ensures h.Coherent() {
        CursorKept(inode, g, fs.SnapOf(inode), n, inode.Count(), h.Pos());
      }
    }

    /** One zero block more; when `cross` is set the size moves to the next block boundary. */
    method Step(cross: bool) returns (ok: bool)
      requires Valid() && inode.iSize < LAST_BLOCK
      modifies fs`blocks, fs`dirty, fs`owner, fs`refused, inode`block, inode`iBlocks, inode`iSize
      ensures Valid() && fs.refused == old(fs.refused) + if ok then 0 else 1
      ensures inode.Count() == old(inode.Count()) + if ok then 1 else 0
      ensures Room() == old(Room()) + Zeros(BLOCK_SIZE * (inode.Count() - old(inode.Count())))
      ensures inode.iSize == if ok && cross then NextBoundary(old(inode.iSize)) else old(inode.iSize)
    {
      hide Flat, Tree, LiveSet, Cursor.Coherent, NextBoundary, Live;
      NextBoundaryAbove(inode.iSize);
      ok := Append();
      if ok && cross {
        inode.iSize := NextBoundary(inode.iSize);
      }
    }

    /**
     * The growth loop of `write`: bring the size up to the block boundary before offset, then make
     * sure the block after a full one exists.
     */
    method Extend(offset: nat) returns (ok: bool)
      requires Valid() && inode.iSize < LAST_BLOCK && offset <= LAST_BLOCK
      modifies fs`blocks, fs`dirty, fs`owner, fs`refused, inode`block, inode`iBlocks, inode`iSize
      ensures Valid() && fs.refused == old(fs.refused) + if ok then 0 else 1
      ensures old(inode.iSize) <= inode.iSize && (inode.iSize == old(inode.iSize) || inode.iSize < offset)
      ensures inode.Count() >= old(inode.Count())
      ensures ok ==> inode.iSize == GrownTo(old(inode.iSize), offset)
      ensures ok ==> inode.Count() == GrownBlocks(old(inode.iSize), old(inode.Count()), offset)
      ensures Room() == old(Room()) + Zeros(BLOCK_SIZE * (inode.Count() - old(inode.Count())))
      ensures ok ==> (offset / BLOCK_SIZE < inode.Count() <==> HasTarget(old(inode.iSize), old(inode.Count()), offset))
    {
      hide Flat, Open, Covered, NextBoundary, Stepped, HasTarget, GrownTo, GrownBlocks;
      ghost var size0, n0 := inode.iSize, inode.Count();
      StepNone(size0, n0);
      while NextBoundary(inode.iSize) < offset
        invariant Valid() && size0 <= inode.iSize < LAST_BLOCK && (inode.iSize == size0 || inode.iSize < offset)
        invariant inode.Count() >= n0 && fs.refused == old(fs.refused)
        invariant Stepped(size0, n0, inode.iSize, inode.Count())
        invariant Room() == old(Room()) + Zeros(BLOCK_SIZE * (inode.Count() - n0))
        decreases offset - inode.iSize
      {
        NextBoundaryAbove(inode.iSize);
        StepOnce(size0, n0, inode.iSize, inode.Count());
        ghost var n := inode.Count();
        ok := Step(true);
        ZerosAdd(BLOCK_SIZE * (n - n0), BLOCK_SIZE * (inode.Count() - n));
        if !ok { return; }
      }
      ghost var size, n := inode.iSize, inode.Count();
      StepsDone(size0, n0, size, n, offset);
      GrowthDone(size0, n0, size, n, offset);
      if inode.iSize % BLOCK_SIZE == 0 {
        ok := Step(false);
        ZerosAdd(BLOCK_SIZE * (n - n0), BLOCK_SIZE * (inode.Count() - n));
        if !ok { return; }
      }
      ok := true;
    }

    /** Every block of the file can be reached, and sizes keep it below the triple range. */
    lemma BlockReached(t: nat)
      requires Open() && t < inode.Count()
      ensures Resolved(inode.block, fs.blocks, Data(t))
    {
      ghost var g, n := fs.SnapOf(inode), inode.Count();
      CountBounded(inode, g, n, VOLUME_BLOCKS);
      LiveResolved(inode, g.ib, g.st, n, g.owner, Data(t));
    }

    /** `seek` to a block of the file. */
    method MoveTo(h: FileStatus, t: Word) returns (err: Status)
      requires Open() && h in handles && t < inode.Count() && t <= IBLOCK_13
      modifies h`blockId, h`blockIdInFile, h`ind0, h`ind1, h`ind2
      ensures Open() && err.Ok? && h.blockIdInFile == t && h.Coherent()
      ensures Room() == old(Room())
    {
      hide Tree, Loc, LiveSet, Live, Cursor.LiveIds, Resolved;
      BlockReached(t);
      err := h.Seek(t);
    }

    /** `next_block` onto another block of the file. */
    method MoveNext(h: FileStatus) returns (err: Status)
      requires Open() && h in handles && h.Coherent() && h.blockIdInFile + 1 < inode.Count()
      modifies h`blockId, h`blockIdInFile, h`ind0, h`ind1, h`ind2
      ensures Open() && err.Ok? && h.blockIdInFile == old(h.blockIdInFile) + 1 && h.Coherent()
      ensures Room() == old(Room())
    {
      hide Tree, Loc, LiveSet, Live, Cursor.LiveIds, Resolved;
      NextCount(inode.iBlocks);
      BlockReached(h.blockIdInFile + 1);
      err := h.NextBlock();
    }

    /** `get_block(block_id_, dirty, off, buf)` under a handle: copies into the current block. */
    method Store(h: FileStatus, off: nat, buf: seq<Byte>)
      requires Open() && h in handles && h.Coherent() && h.blockIdInFile < inode.Count() && off + |buf| <= BLOCK_SIZE
      modifies fs`blocks, fs`dirty
      ensures Open() && h.Coherent()
      ensures BLOCK_SIZE * h.blockIdInFile + off + |buf| <= |old(Room())|
      ensures Room() == Splice(old(Room()), BLOCK_SIZE * h.blockIdInFile + off, buf)
    {
      hide Tree, Loc, LiveSet, Live, Cursor.LiveIds, Resolved, Flat, Splice, PutBytes;
      ghost var c, g, n := fs.Contents(inode), fs.SnapOf(inode), inode.Count();
      FlatPut(c, h.blockIdInFile, off, buf);
      fs.PutData(inode, h.blockIdInFile, h.blockId, off, buf);
      forall o | o in handles && old(o.Coherent()) && o.blockIdInFile < n ensures o.Coherent() {
        CursorKept(inode, g, fs.SnapOf(inode), n, n, o.Pos());
      }
    }

    /** The blocks hold what room0 held, grown by zeros and with buf written from start on. */
    ghost predicate Holding(room0: seq<Byte>, start: nat, buf: seq<Byte>)
      reads this, fs, inode
    {
      && |room0| <= |Room()| && start + |buf| <= |Room()|
      && Room() == Splice(room0 + Zeros(|Room()| - |room0|), start, buf)
    }

    /** The handle has just written byte start + done - 1; what is left starts on a block boundary. */
    ghost predicate Writing(h: FileStatus, start: nat, done: nat, total: nat)
      reads this, fs, fs.files, inode, handles, h
    {
      && Open() && h in handles && h.Coherent() && 0 < done <= total
      && (done < total ==> (start + done) % BLOCK_SIZE == 0)
      && h.blockIdInFile == (start + done - 1) / BLOCK_SIZE < inode.Count()
      && start + total < TWO_32 && inode.iSize <= BLOCK_SIZE * inode.Count()
    }

    /** The loop of the exclusive phase after the first chunk: allocate when the size is reached, step, copy. */
    method WriteMore(h: FileStatus, buf: seq<Byte>, start: nat, done: nat, ghost room0: seq<Byte>) returns (n: nat)
      requires Writing(h, start, done, |buf|) && Holding(room0, start, buf[..done]) && start + done <= inode.iSize
      modifies fs`blocks, fs`dirty, fs`owner, fs`refused, inode`block, inode`iBlocks, inode`iSize
      modifies h`blockId, h`blockIdInFile, h`ind0, h`ind1, h`ind2
      ensures done <= n <= |buf| && Open() && inode.iSize <= BLOCK_SIZE * inode.Count()
      ensures fs.refused == old(fs.refused) + if n == |buf| then 0 else 1
      ensures inode.Count() == old(inode.Count()) + NewBlocks(old(inode.iSize), start + n)
      ensures Holding(room0, start, buf[..n])
      ensures inode.iSize == Max(old(inode.iSize), start + n)
    {
      hide Holding, Open, Flat, Cursor.Coherent, NewBlocks;
      n := done;
      NoNewBlocks(inode.iSize, start + done);
      while n < |buf|
        invariant done <= n <= |buf|
        invariant Writing(h, start, n, |buf|) && Holding(room0, start, buf[..n])
        invariant inode.iSize == Max(old(inode.iSize), start + n) && fs.refused == old(fs.refused)
        invariant inode.Count() == old(inode.Count()) + NewBlocks(old(inode.iSize), start + n)
      {
        var csz := Min(|buf| - n, BLOCK_SIZE);
        NextNewBlock(old(inode.iSize), start + n, csz);
        var ok := ReadyNext(h, start, n, |buf|, room0, buf[..n]);
        if !ok { return; }
        PutNext(h, buf, start, n, csz, room0);
        n := n + csz;
        CoverMore(h, start, n, |buf|, room0, buf[..n]);
      }
    }

    /** `i_size = max(i_size, offset)` after a chunk. */
    method CoverMore(h: FileStatus, start: nat, done: nat, total: nat, ghost room0: seq<Byte>, ghost buf: seq<Byte>)
      requires Writing(h, start, done, total) && Holding(room0, start, buf)
      modifies inode`iSize
      ensures Writing(h, start, done, total) && Holding(room0, start, buf)
      ensures inode.iSize == Max(old(inode.iSize), start + done)
    {
      hide Open, Flat, Cursor.Coherent, Splice;
      assert BLOCK_SIZE * ((start + done - 1) / BLOCK_SIZE) + BLOCK_SIZE >= start + done;
      Cover(start + done);
    }

    /** The loop of the shared phase: every block is there, the size stays. */
    method OverwriteMore(h: FileStatus, buf: seq<Byte>, start: nat, done: nat, ghost room0: seq<Byte>)
      requires Writing(h, start, done, |buf|) && Holding(room0, start, buf[..done]) && start + |buf| <= inode.iSize
      modifies fs`blocks, fs`dirty
      modifies h`blockId, h`blockIdInFile, h`ind0, h`ind1, h`ind2
      ensures Open() && Holding(room0, start, buf)
    {
      hide Holding, Open, Flat, Cursor.Coherent;
      var n := done;
      while n < |buf|
        invariant done <= n <= |buf|
        invariant Writing(h, start, n, |buf|) && Holding(room0, start, buf[..n])
      {
        var csz := Min(|buf| - n, BLOCK_SIZE);
        ChunkPlace(start, n, csz, |buf|);
        PutNext(h, buf, start, n, csz, room0);
        n := n + csz;
      }
      assert buf[..n] == buf;
    }

    /** Makes sure the next block exists. */
    method ReadyNext(h: FileStatus, start: nat, done: nat, total: nat, ghost room0: seq<Byte>, ghost buf: seq<Byte>)
      returns (ok: bool)
      requires Writing(h, start, done, total) && done < total && Holding(room0, start, buf)
      requires start + done <= inode.iSize
      modifies fs`blocks, fs`dirty, fs`owner, fs`refused, inode`block, inode`iBlocks
      ensures Writing(h, start, done, total) && Holding(room0, start, buf)
      ensures ok ==> h.blockIdInFile + 1 < inode.Count()
      ensures fs.refused == old(fs.refused) + if ok then 0 else 1
      ensures inode.Count() == old(inode.Count()) + if ok && start + done >= inode.iSize then 1 else 0
    {
      hide Flat, Cursor.Coherent;
      ok := true;
      if start + done >= inode.iSize {
        ghost var r := Room();
        ok := Append();
        if ok {
          SpliceGrow(room0 + Zeros(|r| - |room0|), start, buf, Zeros(BLOCK_SIZE));
          ZerosAdd(|r| - |room0|, BLOCK_SIZE);
          assert room0 + Zeros(|r| - |room0|) + Zeros(BLOCK_SIZE) == room0 + (Zeros(|r| - |room0|) + Zeros(BLOCK_SIZE));
        } else {
          assert Room() == r;
        }
      }
    }

    /** Steps onto the next block and copies a chunk to its start. */
    method PutNext(h: FileStatus, buf: seq<Byte>, start: nat, done: nat, csz: nat, ghost room0: seq<Byte>)
      requires Writing(h, start, done, |buf|) && done < |buf| && csz == Min(|buf| - done, BLOCK_SIZE)
      requires h.blockIdInFile + 1 < inode.Count() && Holding(room0, start, buf[..done])
      modifies fs`blocks, fs`dirty
      modifies h`blockId, h`blockIdInFile, h`ind0, h`ind1, h`ind2
      ensures Writing(h, start, done + csz, |buf|) && Holding(room0, start, buf[..done + csz])
    {
      hide Flat, Cursor.Coherent, Splice, Open, OpenFile.Room;
      ghost var base, room := room0 + Zeros(|Room()| - |room0|), Room();
      ChunkPlace(start, done, csz, |buf|);
      var err := MoveNext(h);
      Store(h, 0, buf[done..done + csz]);
      SpliceThen(base, start, buf[..done], buf[done..done + csz]);
      Chunks(buf, 0, done, csz);
    }

    /** `i_size = max(i_size, end)`. */
    method Cover(end: Word)
      requires Open()
      modifies inode`iSize
      ensures Open() && Room() == old(Room())
      ensures inode.iSize == Max(old(inode.iSize), end)
      ensures forall h | h in handles && old(h.Coherent()) :: h.Coherent()
    {
      hide Flat, Cursor.Coherent, Tree, Live, LiveSet;
      inode.iSize := Max(inode.iSize, end);
    }

    /** The first chunk: from start to the end of its block at most. */
    method PutFirst(h: FileStatus, buf: seq<Byte>, start: nat, ghost room0: seq<Byte>) returns (done: nat)
      requires Open() && h in handles && buf != [] && start + |buf| < TWO_32
      requires start / BLOCK_SIZE < inode.Count() && inode.iSize <= BLOCK_SIZE * inode.Count()
      requires |room0| <= |Room()| && Room() == room0 + Zeros(|Room()| - |room0|)
      modifies fs`blocks, fs`dirty
      modifies h`blockId, h`blockIdInFile, h`ind0, h`ind1, h`ind2
      ensures Writing(h, start, done, |buf|) && Holding(room0, start, buf[..done])
      ensures done == Min(|buf|, BLOCK_SIZE - start % BLOCK_SIZE)
    {
      hide Flat, Cursor.Coherent, Splice, Open;
      done := Min(|buf|, BLOCK_SIZE - start % BLOCK_SIZE);
      FirstPlace(start, done, |buf|);
      var err := MoveTo(h, start / BLOCK_SIZE);
      Store(h, start % BLOCK_SIZE, buf[..done]);
    }

    /** The shared phase of `write` when the range lies inside the file. */
    method Overwrite(h: FileStatus, buf: seq<Byte>, start: nat)
      requires Valid() && h in handles && buf != [] && start + |buf| <= inode.iSize
      modifies fs`blocks, fs`dirty
      modifies h`blockId, h`blockIdInFile, h`ind0, h`ind1, h`ind2
      ensures Valid()
      ensures Bytes() == Overlay(old(Bytes()), start, buf)
    {
      hide Flat, Cursor.Coherent, Open, Splice, Overlay, Covered;
      ghost var room0 := Room();
      assert room0 + Zeros(0) == room0;
      var done := PutFirst(h, buf, start, room0);
      OverwriteMore(h, buf, start, done, room0);
      SpliceIsOverlay(room0, inode.iSize, |Room()| - |room0|, start, buf);
    }

    /** `upd_all`: every handle must re-read its position. */
    method UpdAll()
      requires Valid()
      modifies handles`cacheUpdateFlag
      ensures Valid() && Bytes() == old(Bytes())
      ensures forall h | h in handles :: h.cacheUpdateFlag
    {
      for i := 0 to |handles|
        invariant Valid() && forall j | 0 <= j < i :: handles[j].cacheUpdateFlag
      {
        handles[i].cacheUpdateFlag := true;
      }
    }

    /** The copying part of the exclusive phase, after growth from (room0, size0). */
    method WriteFrom(h: FileStatus, buf: seq<Byte>, start: nat, ghost room0: seq<Byte>, ghost size0: nat)
        returns (n: nat)
      requires Open() && h in handles && buf != [] && start + |buf| < TWO_32
      requires start / BLOCK_SIZE < inode.Count() && inode.iSize <= BLOCK_SIZE * inode.Count()
      requires |room0| <= |Room()| && Room() == room0 + Zeros(|Room()| - |room0|)
      requires Covered(room0, size0) && size0 <= inode.iSize && (inode.iSize == size0 || inode.iSize < start)
      modifies fs`blocks, fs`dirty, fs`owner, fs`refused, inode`block, inode`iBlocks, inode`iSize
      modifies h`blockId, h`blockIdInFile, h`ind0, h`ind1, h`ind2
      ensures Valid() && 0 < n <= |buf| && inode.iSize >= size0
      ensures Bytes() == Overlay(room0[..size0], start, buf[..n])
      ensures fs.refused == old(fs.refused) + if n == |buf| then 0 else 1
      ensures inode.Count() == WrittenBlocks(old(inode.iSize), old(inode.Count()), start, |buf|, n)
    {
      hide Flat, Cursor.Coherent, Open, Splice, Overlay, Covered, NewBlocks;
      var done := PutFirst(h, buf, start, room0);
      CoverMore(h, start, done, |buf|, room0, buf[..done]);
      n := WriteMore(h, buf, start, done, room0);
      SpliceIsOverlay(room0, size0, |Room()| - |room0|, start, buf[..n]);
    }

    /** Where a write begins: an append looks at the size under the lock it holds. */
    function StartOf(offset: nat, append: bool): nat
      reads this, inode
    {
      if append then inode.iSize else offset
    }

    /**
     * The exclusive phase of `write`.  For every offset whose target block the growth loop provides,
     * the file becomes the overlay of the whole buffer, unless an allocation is refused: then of the
     * bytes before it, or only zeros are added.  The file gets no more blocks than the growth loop and
     * the boundaries written past the size ask for.  Sizes must stay out of the last block of the
     * 32-bit range.
     */
    method WriteExclusive(h: FileStatus, buf: seq<Byte>, offset: nat, append: bool) returns (r: Outcome)
      requires Valid() && h in handles && buf != []
      requires inode.iSize < LAST_BLOCK && StartOf(offset, append) <= LAST_BLOCK
      requires StartOf(offset, append) + |buf| < TWO_32
      modifies fs`blocks, fs`dirty, fs`owner, fs`refused, inode`block, inode`iBlocks, inode`iSize
      modifies h`blockId, h`blockIdInFile, h`ind0, h`ind1, h`ind2, handles`cacheUpdateFlag
      ensures Valid() && inode.iSize >= old(inode.iSize)
      ensures r.Wrote? ==> 0 < r.n <= |buf|
      ensures r.Wrote? ==> Bytes() == Overlay(old(Bytes()), old(StartOf(offset, append)), buf[..r.n])
      ensures !r.Wrote? ==> Bytes() == Overlay(old(Bytes()), inode.iSize, [])
      ensures !r.Wrote? ==> inode.iSize == old(inode.iSize) || inode.iSize < old(StartOf(offset, append))
      ensures r.Wrote? ==> HasTarget(old(inode.iSize), old(inode.Count()), old(StartOf(offset, append)))
      ensures fs.refused == old(fs.refused) + if r.NoSpace? || (r.Wrote? && r.n < |buf|) then 1 else 0
      ensures r.Stray? <==> fs.refused == old(fs.refused)
                            && !HasTarget(old(inode.iSize), old(inode.Count()), old(StartOf(offset, append)))
      ensures var size, n, start := old(inode.iSize), old(inode.Count()), old(StartOf(offset, append));
              r.Wrote? ==>
                inode.Count() == WrittenBlocks(GrownTo(size, start), GrownBlocks(size, n, start), start, |buf|, r.n)
      ensures forall o | o in handles :: o.cacheUpdateFlag == (r == Wrote(|buf|) || old(o.cacheUpdateFlag))
    {
      hide Flat, Cursor.Coherent, Open, Splice, Overlay, HasTarget, Covered, GrownTo, GrownBlocks, WrittenBlocks;
      var start := StartOf(offset, append);
      ghost var room0, size0 := Room(), inode.iSize;
      var ok := Extend(start);
      ghost var more := |Room()| - |room0|;
      SpliceNothing(room0, more);
      SpliceIsOverlay(room0, size0, more, inode.iSize, []);
      if !ok {
        return NoSpace;
      }
      if start / BLOCK_SIZE >= inode.Count() {
        return Stray;
      }
      var n := WriteFrom(h, buf, start, room0, size0);
      if n == |buf| {
        UpdAll();
      }
      r := Wrote(n);
    }

    /** `_upd_cache` never fails on a handle that stands on a block of the file. */
    method Refresh(h: FileStatus) returns (err: Status)
      requires Valid() && h in handles
      modifies h
      ensures Valid() && err.Ok? && Bytes() == old(Bytes())
      ensures h.blockIdInFile == old(h.blockIdInFile) && !h.cacheUpdateFlag
    {
      hide Tree, Loc, LiveSet, Live, Cursor.LiveIds, Resolved, Flat;
      if h.blockIdInFile < inode.Count() {
        BlockReached(h.blockIdInFile);
      } else {
        DirectPath(inode.block, fs.blocks, 0);
      }
      err := h.UpdCache();
    }

    /** `get_block(block_id_, clean, off, buf, csz)` under a handle: copies out of the current block. */
    method Fetch(h: FileStatus, off: nat, csz: nat) returns (chunk: seq<Byte>)
      requires Open() && h in handles && h.Coherent() && h.blockIdInFile < inode.Count() && off + csz <= BLOCK_SIZE
      ensures BLOCK_SIZE * h.blockIdInFile + off + csz <= |Room()|
      ensures chunk == Room()[BLOCK_SIZE * h.blockIdInFile + off..][..csz]
    {
      hide Tree, Loc, LiveSet, Live, Cursor.LiveIds, Resolved;
      CountBounded(inode, fs.SnapOf(inode), inode.Count(), VOLUME_BLOCKS);
      DataThere(inode, fs.SnapOf(inode), inode.Count(), h.blockIdInFile);
      chunk := fs.blocks[h.blockId][off..off + csz];
      FlatSlice(fs.Contents(inode), h.blockIdInFile, off, csz);
    }

    /** buf holds the bytes from offset on, and the handle stands on the block of the last one. */
    ghost predicate Reading(h: FileStatus, offset: nat, buf: seq<Byte>)
      reads this, fs, fs.files, inode, handles, h
    {
      && Open() && h in handles && h.Coherent() && buf != []
      && h.blockIdInFile == (offset + |buf| - 1) / BLOCK_SIZE < inode.Count()
      && offset + |buf| <= |Room()| && buf == Room()[offset..offset + |buf|]
    }

    /** The first chunk of a read: seek to its block and copy out of it. */
    method ReadFirst(h: FileStatus, offset: nat, csz: nat) returns (buf: seq<Byte>)
      requires Open() && h in handles && offset < inode.iSize <= BLOCK_SIZE * inode.Count()
      requires csz <= BLOCK_SIZE - offset % BLOCK_SIZE
      modifies h`blockId, h`blockIdInFile, h`ind0, h`ind1, h`ind2
      ensures Open() && h.Coherent() && h.blockIdInFile == offset / BLOCK_SIZE < inode.Count() && Room() == old(Room())
      ensures |buf| == csz && offset + csz <= |Room()| && buf == Room()[offset..offset + csz]
    {
      hide Flat, Cursor.Coherent, Open, OpenFile.Room;
      var err := MoveTo(h, offset / BLOCK_SIZE);
      buf := Fetch(h, offset % BLOCK_SIZE, csz);
      Chunks(Room(), offset, offset, csz);
    }

    /** One more chunk: step onto the next block and copy its first csz bytes. */
    method ReadNext(h: FileStatus, offset: nat, buf: seq<Byte>, csz: nat) returns (more: seq<Byte>)
      requires Reading(h, offset, buf) && (offset + |buf|) % BLOCK_SIZE == 0 && 0 < csz <= BLOCK_SIZE
      requires h.blockIdInFile + 1 < inode.Count()
      modifies h`blockId, h`blockIdInFile, h`ind0, h`ind1, h`ind2
      ensures Reading(h, offset, more) && |more| == |buf| + csz && Room() == old(Room())
    {
      hide Flat, Cursor.Coherent, Open, OpenFile.Room;
      ghost var room, at := Room(), offset + |buf|;
      NextPlace(at, csz);
      var err := MoveNext(h);
      var chunk := Fetch(h, 0, csz);
      Chunks(room, offset, at, csz);
      more := buf + chunk;
    }

    /** The loop of `copy_to_buf` after the first chunk. */
    method ReadMore(h: FileStatus, offset: nat, size: nat, first: seq<Byte>) returns (buf: seq<Byte>)
      requires Reading(h, offset, first) && offset < inode.iSize <= BLOCK_SIZE * inode.Count()
      requires |first| < size && (offset + |first|) % BLOCK_SIZE == 0
      modifies h`blockId, h`blockIdInFile, h`ind0, h`ind1, h`ind2
      ensures Reading(h, offset, buf) && Room() == old(Room())
      ensures |buf| == Max(|first|, Min(size, inode.iSize - offset))
    {
      hide Flat, Cursor.Coherent, Open;
      buf := first;
      while |buf| < size
        invariant Reading(h, offset, buf) && Room() == old(Room())
                  && |first| <= |buf| <= Max(|first|, Min(size, inode.iSize - offset))
        invariant |buf| < size && offset + |buf| < inode.iSize ==> (offset + |buf|) % BLOCK_SIZE == 0
      {
        if offset + |buf| >= inode.iSize { return; }
        var csz := Min(size - |buf|, Min(inode.iSize - offset - |buf|, BLOCK_SIZE));
        NextPlace(offset + |buf|, csz);
        buf := ReadNext(h, offset, buf, csz);
      }
    }

    /**
     * `copy_to_buf`: the bytes from offset on.  The first chunk is not cut at the size, so the result
     * may run on to the end of its block; what lies there is zero.
     */
    method CopyToBuf(h: FileStatus, offset: nat, size: nat) returns (err: Status, buf: seq<Byte>)
      requires Valid() && h in handles
      modifies h
      ensures Valid() && err.Ok? && Bytes() == old(Bytes())
      ensures |buf| == ReadLen(inode.iSize, offset, size)
      ensures forall j | 0 <= j < |buf| :: buf[j] == if offset + j < inode.iSize then Bytes()[offset + j] else 0
    {
      hide Flat, Cursor.Coherent, Open, Covered, OpenFile.Room;
      if offset >= inode.iSize {
        return Ok, [];
      }
      err := Refresh(h);
      var csz := Min(size, BLOCK_SIZE - offset % BLOCK_SIZE);
      buf := ReadFirst(h, offset, csz);
      if csz < size {
        FirstPlace(offset, csz, size);
        buf := ReadMore(h, offset, size, buf);
      }
      BytesRead(Room(), inode.iSize, offset, buf);
    }
  }

  /** A stretch of a covered file: its bytes, and zeros beyond the size. */
  lemma BytesRead(room: seq<Byte>, size: nat, offset: nat, buf: seq<Byte>)
    requires Covered(room, size) && offset + |buf| <= |room| && buf == room[offset..offset + |buf|]
    ensures forall j | 0 <= j < |buf| :: buf[j] == if offset + j < size then room[..size][offset + j] else 0
  {
  }

  /** How many bytes `copy_to_buf` hands back. */
  function ReadLen(isize: nat, offset: nat, size: nat): nat {
    if offset >= isize then 0 else Max(Min(size, BLOCK_SIZE - offset % BLOCK_SIZE), Min(size, isize - offset))
  }

  /** A read ends where it was asked to, or at the end of the file or of its first block, whichever is later. */
  lemma ReadLenReach(isize: nat, offset: nat, size: nat)
    requires offset < isize
    ensures offset + ReadLen(isize, offset, size) ==
              Min(offset + size, Max(isize, offset - offset % BLOCK_SIZE + BLOCK_SIZE))
  {
  }

  /** A read is cut at the size exactly when it starts beyond it, ends within it, or its first block lies within it. */
  lemma ReadLenExact(isize: nat, offset: nat, size: nat)
    ensures ReadLen(isize, offset, size) == (if offset >= isize then 0 else Min(size, isize - offset)) <==>
              || offset >= isize
              || offset + size <= isize
              || offset - offset % BLOCK_SIZE + BLOCK_SIZE <= isize
  {
  }

  /** Reading 10 bytes of a 3-byte file yields all 10. */
  lemma ReadPastTheEnd()
    ensures ReadLen(3, 0, 10) == 10
  {
  }

  lemma NextPlace(at: nat, csz: nat)
    requires 0 < at && at % BLOCK_SIZE == 0 && 0 < csz <= BLOCK_SIZE
    ensures (at - 1) / BLOCK_SIZE + 1 == at / BLOCK_SIZE == (at + csz - 1) / BLOCK_SIZE
    ensures BLOCK_SIZE * (at / BLOCK_SIZE) == at
    ensures csz == BLOCK_SIZE ==> (at + csz) % BLOCK_SIZE == 0
  {
    var q := at / BLOCK_SIZE;
    assert at == BLOCK_SIZE * q;
    DivModBlock(at - 1, q - 1, BLOCK_SIZE - 1);
    DivModBlock(at + csz - 1, q, csz - 1);
  }

  lemma SpliceNothing(room: seq<Byte>, more: nat)
    ensures forall i | 0 <= i <= |room| + more :: Splice(room + Zeros(more), i, []) == room + Zeros(more)
  {
  }

  lemma FirstPlace(start: nat, done: nat, total: nat)
    requires 0 < total && done == Min(total, BLOCK_SIZE - start % BLOCK_SIZE)
    ensures 0 < done && start % BLOCK_SIZE + done <= BLOCK_SIZE
    ensures BLOCK_SIZE * (start / BLOCK_SIZE) + start % BLOCK_SIZE == start
    ensures (start + done - 1) / BLOCK_SIZE == start / BLOCK_SIZE
    ensures done < total ==> (start + done) % BLOCK_SIZE == 0
  {
    var q, r := start / BLOCK_SIZE, start % BLOCK_SIZE;
    DivModBlock(start + done - 1, q, r + done - 1);
    if done < total {
      DivModBlock(start + done, q + 1, 0);
    }
  }

  /** Where the next chunk goes. */
  lemma ChunkPlace(start: nat, done: nat, csz: nat, total: nat)
    requires 0 < done < total && (start + done) % BLOCK_SIZE == 0 && csz == Min(total - done, BLOCK_SIZE)
    ensures (start + done - 1) / BLOCK_SIZE + 1 == (start + done) / BLOCK_SIZE == (start + done + csz - 1) / BLOCK_SIZE
    ensures BLOCK_SIZE * ((start + done) / BLOCK_SIZE) == start + done
    ensures done + csz < total ==> (start + done + csz) % BLOCK_SIZE == 0
  {
    var q := (start + done) / BLOCK_SIZE;
    assert start + done == BLOCK_SIZE * q;
    DivModBlock(start + done - 1, q - 1, BLOCK_SIZE - 1);
    DivModBlock(start + done + csz - 1, q, csz - 1);
    if done + csz < total {
      DivModBlock(start + done + csz, q + 1, 0);
    }
  }

  /** From size0 and n0 blocks, the growth loop has reached size and n blocks. */
  ghost predicate Stepped(size0: nat, n0: nat, size: nat, n: nat) {
    && size0 <= BLOCK_SIZE * n0
    && if size == size0 then n == n0
       else size0 < size && size % BLOCK_SIZE == 0 && BLOCK_SIZE * (n - n0) == size - (size0 - size0 % BLOCK_SIZE)
  }

  lemma StepNone(size: nat, n: nat)
    requires size <= BLOCK_SIZE * n
    ensures Stepped(size, n, size, n)
  {
  }

  lemma StepOnce(size0: nat, n0: nat, size: Word, n: nat)
    requires Stepped(size0, n0, size, n) && size < LAST_BLOCK
    ensures Stepped(size0, n0, NextBoundary(size), n + 1)
  {
    NextBoundaryAbove(size);
  }

  /**
   * Whether block offset / BLOCK_SIZE exists after the growth loop on a file of `size` bytes and n
   * blocks: not when offset is a block boundary beyond the size that the loop stops short of, unless
   * the file had a spare block.
   */
  predicate HasTarget(size: Word, n: nat, offset: nat) {
    || !(offset > size && offset % BLOCK_SIZE == 0 && (size % BLOCK_SIZE == 0 || offset == NextBoundary(size)))
    || BLOCK_SIZE * n >= size + BLOCK_SIZE
  }

  /** Writing to the second block of a 100-byte file finds no block at its start, but does one byte later. */
  lemma BoundaryHasNoTarget()
    ensures !HasTarget(100, 1, BLOCK_SIZE) && HasTarget(100, 1, BLOCK_SIZE + 1)
  {
  }

  lemma StepsDone(size0: Word, n0: nat, size: Word, n: nat, offset: nat)
    requires Stepped(size0, n0, size, n) && size < LAST_BLOCK && (size == size0 || size < offset)
    requires NextBoundary(size) >= offset
    ensures offset / BLOCK_SIZE < n + (if size % BLOCK_SIZE == 0 then 1 else 0) <==> HasTarget(size0, n0, offset)
  {
    NextBoundaryAbove(size0);
    NextBoundaryAbove(size);
    var q, r := size0 / BLOCK_SIZE, size0 % BLOCK_SIZE;
    var t, u := offset / BLOCK_SIZE, offset % BLOCK_SIZE;
    assert size0 == BLOCK_SIZE * q + r && offset == BLOCK_SIZE * t + u;
    var p := size / BLOCK_SIZE;
    assert size == BLOCK_SIZE * p + size % BLOCK_SIZE;
    assert NextBoundary(size) == BLOCK_SIZE * (p + 1);
  }

  /** The size at which the growth loop stops: the last block boundary before offset, if that is beyond the size. */
  function GrownTo(size: Word, offset: nat): nat {
    if offset <= NextBoundary(size) then size else offset - 1 - (offset - 1) % BLOCK_SIZE
  }

  /** The blocks of the file then: one for each boundary passed, and one more where a block begins. */
  function GrownBlocks(size: Word, n: nat, offset: nat): int {
    var end := GrownTo(size, offset);
    n + end / BLOCK_SIZE - size / BLOCK_SIZE + if end % BLOCK_SIZE == 0 then 1 else 0
  }

  lemma GrowthDone(size0: Word, n0: nat, size: Word, n: nat, offset: nat)
    requires Stepped(size0, n0, size, n) && size < LAST_BLOCK && (size == size0 || size < offset)
    requires NextBoundary(size) >= offset
    ensures size == GrownTo(size0, offset)
    ensures n + (if size % BLOCK_SIZE == 0 then 1 else 0) == GrownBlocks(size0, n0, offset)
  {
    NextBoundaryAbove(size0);
    NextBoundaryAbove(size);
    if size != size0 {
      var p, q := size / BLOCK_SIZE, size0 / BLOCK_SIZE;
      assert size == BLOCK_SIZE * p && size0 - size0 % BLOCK_SIZE == BLOCK_SIZE * q && q < p;
      assert NextBoundary(size) == BLOCK_SIZE * (p + 1) && NextBoundary(size0) == BLOCK_SIZE * (q + 1);
      DivModBlock(offset - 1, p, offset - 1 - BLOCK_SIZE * p);
    }
  }

  function BlocksFor(size: nat): nat {
    (size + BLOCK_SIZE - 1) / BLOCK_SIZE
  }

  /** How many more blocks `end` bytes need than `size` bytes. */
  function NewBlocks(size: nat, end: nat): nat {
    if end <= size then 0 else BlocksFor(end) - BlocksFor(size)
  }

  lemma NoNewBlocks(size: nat, end: nat)
    requires end <= size
    ensures NewBlocks(size, end) == 0
  {
  }

  /** A chunk from a block boundary on needs a new block exactly when the size does not reach beyond its start. */
  lemma NextNewBlock(size: nat, at: nat, csz: nat)
    requires at % BLOCK_SIZE == 0 && 0 < csz <= BLOCK_SIZE
    ensures NewBlocks(size, at + csz) == NewBlocks(size, at) + if at >= size then 1 else 0
  {
    var q := at / BLOCK_SIZE;
    assert at == BLOCK_SIZE * q;
    DivModBlock(at + csz + BLOCK_SIZE - 1, q + 1, csz - 1);
    DivModBlock(at + BLOCK_SIZE - 1, q, BLOCK_SIZE - 1);
  }

  /**
   * The blocks of a file of that size and count after n of the bytes of a write are in: the first chunk
   * needs none, and the others one for each boundary at or beyond the size.
   */
  function WrittenBlocks(size: nat, count: nat, start: nat, total: nat, n: nat): nat {
    count + NewBlocks(Max(size, start + Min(total, BLOCK_SIZE - start % BLOCK_SIZE)), start + n)
  }

  /** A file without spare blocks has none after an append either. */
  lemma AppendFits(size: Word, total: nat)
    requires size < LAST_BLOCK && total > 0
    ensures GrownBlocks(size, BlocksFor(size), size) >= 0
    ensures WrittenBlocks(GrownTo(size, size), GrownBlocks(size, BlocksFor(size), size), size, total, total)
            == BlocksFor(size + total)
  {
    var q, u := size / BLOCK_SIZE, size % BLOCK_SIZE;
    NextBoundaryAbove(size);
    var first := size + Min(total, BLOCK_SIZE - u);
    DivModBlock(first + BLOCK_SIZE - 1, q + 1, first - BLOCK_SIZE * q - 1);
    if u == 0 {
      DivModBlock(size + BLOCK_SIZE - 1, q, BLOCK_SIZE - 1);
    } else {
      DivModBlock(size + BLOCK_SIZE - 1, q + 1, u - 1);
    }
  }

  lemma ZerosAdd(a: nat, b: nat)
    ensures Zeros(a) + Zeros(b) == Zeros(a + b)
  {
  }
}
