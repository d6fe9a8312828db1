/** `inode_delete`: the data blocks of a file are freed, its indirect blocks and those of a directory are not. */
module Deletion {
  import opened Bytes
  import opened BlockTree
  import opened Volume
  import opened Walk
  import opened DentryBlocks
  import opened Directories

  /** The blocks of the other files: those that f does not own. */
  ghost function Disowned<F>(owner: map<Word, Owned<F>>, f: F): map<Word, Owned<F>> {
    map b | b in owner && owner[b].f != f :: owner[b]
  }

  lemma DeletedOther<F>(f: F, g: Snap<F>, gone: set<Word>, o: F, oib: Pointers, m: nat)
    requires g.owner.Keys <= g.st.Keys && o != f && m <= TREE_CAPACITY
    requires forall b | b in gone :: b in g.owner && g.owner[b].f == f
    requires g.(ib := oib).Holds(o, LiveSet(m))
    ensures var h, h' := g.(ib := oib), Snap(oib, g.st - gone, Disowned(g.owner, f));
            h'.Holds(o, LiveSet(m)) && ListOf(h', m) == ListOf(h, m) && ContentOf(h', m) == ContentOf(h, m)
  {
    LiveSetClosed(m);
    TreeFrame(o, oib, g.st, g.st - gone, LiveSet(m), g.owner, Disowned(g.owner, f));
    forall j | 0 <= j < m ensures Data(j) in LiveSet(m) {}
  }

  /** The inode leaves the volume together with the blocks `gone`; the other files are as they were in g. */
  method Forget(fs: FileSystem, ghost inode: Inode, ghost g: Snap<Inode>, ghost gone: set<Word>)
    requires fs.blocks == g.st - gone && fs.owner == g.owner && fs.dirty <= fs.blocks.Keys
    requires g.owner.Keys <= g.st.Keys && forall b | b in g.st :: b < VOLUME_BLOCKS
    requires forall b | b in gone :: b in g.owner && g.owner[b].f == inode
    requires forall f | f in fs.files :: g.(ib := f.block).Holds(f, LiveSet(f.Count()))
    modifies fs`owner, fs`files
    ensures fs.Valid() && fs.files == old(fs.files) - {inode} && fs.owner == Disowned(g.owner, inode)
    ensures forall f | f in fs.files :: fs.DataList(f) == ListOf(g.(ib := f.block), f.Count())
    ensures forall f | f in fs.files :: fs.Contents(f) == ContentOf(g.(ib := f.block), f.Count())
  {
    hide Loc, LiveSet, ListOf, ContentOf;
    fs.owner := Disowned(fs.owner, inode);
    fs.files := fs.files - {inode};
    forall f | f in fs.files
      ensures fs.SnapOf(f).Holds(f, LiveSet(f.Count()))
      ensures fs.DataList(f) == ListOf(g.(ib := f.block), f.Count())
      ensures fs.Contents(f) == ContentOf(g.(ib := f.block), f.Count())
    {
      NextCount(f.iBlocks);
      DeletedOther(inode, g, gone, f, f.block, f.Count());
    }
  }

  /**
   * Deletes the file: exactly its data blocks become free, every other file keeps its blocks and their
   * contents, and the indirect blocks stay allocated although no file uses them any more.  So all its
   * blocks become free exactly when it has no more than the direct ones.
   */
  method DeleteFile(fs: FileSystem, inode: Inode)
    requires fs.Valid() && inode in fs.files
    modifies fs`blocks, fs`dirty, fs`owner, fs`files
    ensures fs.Valid() && fs.files == old(fs.files) - {inode}
    ensures fs.blocks == old(fs.blocks) - Range(old(fs.DataList(inode)))
    ensures forall f | f in fs.files :: fs.DataList(f) == old(fs.DataList(f)) && fs.Contents(f) == old(fs.Contents(f))
    ensures forall p | p in LiveSet(inode.Count()) && !p.Data? ::
              old(fs.SnapOf(inode)).At(p) in fs.blocks && old(fs.SnapOf(inode)).At(p) !in fs.owner
    ensures (forall p | p in LiveSet(inode.Count()) :: old(fs.SnapOf(inode)).At(p) !in fs.blocks) <==>
              inode.Count() <= DIRECT
  {
    hide Loc, LiveSet, Visited, ListOf, ContentOf, Disowned, Range;
    ghost var g, n := fs.SnapOf(inode), inode.Count();
    NextCount(inode.iBlocks);
    var list := VisitInodeBlocks(fs, inode, _ => false);
    WhatIsFreed(inode, g, n);
    FreeAll(fs, list);
    Forget(fs, inode, g, Range(list));
  }

  method FreeAll(fs: FileSystem, list: seq<Word>)
    requires fs.dirty <= fs.blocks.Keys
    modifies fs`blocks, fs`dirty
    ensures fs.blocks == old(fs.blocks) - Range(list) && fs.dirty <= fs.blocks.Keys
  {
    for i := 0 to |list|
      invariant fs.blocks == old(fs.blocks) - Range(list[..i]) && fs.dirty <= fs.blocks.Keys
    {
      var ok := fs.FreeBlock(list[i]);
      assert Range(list[..i + 1]) == Range(list[..i]) + {list[i]};
    }
    assert list[..|list|] == list;
  }

  /** Freeing the data blocks of a file, and only those, leaves its indirect blocks without an owner. */
  lemma WhatIsFreed<F>(f: F, g: Snap<F>, n: nat)
    requires g.Holds(f, LiveSet(n)) && n <= TREE_CAPACITY
    ensures forall b | b in Range(ListOf(g, n)) :: b in g.owner && g.owner[b].f == f
    ensures var st := g.st - Range(ListOf(g, n));
            && (forall p | p in LiveSet(n) && !p.Data? :: g.At(p) in st && g.At(p) !in Disowned(g.owner, f))
            && ((forall p | p in LiveSet(n) :: g.At(p) !in st) <==> n <= DIRECT)
  {
    hide Snap.Holds, Snap.At, ListOf, LiveSet;
    ListOwned(f, g, n);
    OnlyDirect(n);
  }

  /** Every position of a file is a data block exactly when it has no more than the direct ones. */
  lemma OnlyDirect(n: nat)
    ensures (forall p | p in LiveSet(n) :: p.Data?) <==> n <= DIRECT
  {
    if n > DIRECT {
      assert Leaf(0) in LiveSet(n);
    }
  }

  /**
   * Deletes a directory without live records: the walk over its records goes on to no other inode,
   * nothing becomes free, and its blocks stay allocated although nobody uses them.
   */
  method DeleteDirectory(fs: FileSystem, inode: Inode) returns (children: seq<Word>)
    requires fs.Valid() && inode in fs.files && !AnyLive(Recs(fs.Contents(inode)))
    modifies fs`owner, fs`files
    ensures fs.Valid() && fs.files == old(fs.files) - {inode} && children == []
    ensures forall f | f in fs.files :: fs.DataList(f) == old(fs.DataList(f)) && fs.Contents(f) == old(fs.Contents(f))
    ensures forall p | p in LiveSet(inode.Count()) :: old(fs.SnapOf(inode)).At(p) !in fs.owner
  {
    hide Loc, LiveSet, ListOf, ContentOf, Recs, AnyLive;
    children := Children(fs, inode);
    ghost var g := fs.SnapOf(inode);
    assert g.st - {} == g.st;
    Forget(fs, inode, g, {});
  }

  ghost function Range(s: seq<Word>): set<Word> {
    set b | b in s
  }

  lemma ListOwned<F>(f: F, g: Snap<F>, n: nat)
    requires g.Holds(f, LiveSet(n)) && n <= TREE_CAPACITY
    ensures forall b | b in ListOf(g, n) :: b in g.owner && g.owner[b].f == f && g.owner[b].p.Data?
    ensures forall p | p in LiveSet(n) && p.Data? :: g.At(p) in ListOf(g, n)
    ensures forall p | p in LiveSet(n) && !p.Data? :: g.At(p) in g.st && g.At(p) !in ListOf(g, n)
                                                    && g.At(p) in g.owner && g.owner[g.At(p)].f == f
  {
    forall k | 0 <= k < n ensures g.At(Data(k)) in g.owner && g.owner[g.At(Data(k))] == Owned(f, Data(k)) {
      DataThere(f, g, n, k);
    }
  }
}
