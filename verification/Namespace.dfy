/** Path lookup, creation, linking and removal on the directories of a volume (`src/filesystem.cpp`). */
module Namespaces {
  import opened Bytes
  import opened BlockTree
  import opened Volume
  import opened DentryBlocks
  import opened Directories
  import opened Names
  import opened PathCaches
  import opened Deletion

  /** An allocated inode: its blocks, its kind and its link count. */
  datatype TableEntry = TableEntry(inode: Inode, isDir: bool, links: nat)

  /** The inodes have blocks of their own. */
  ghost predicate Apart(table: map<Word, TableEntry>, files: set<Inode>) {
    && (forall x | x in table :: table[x].inode in files)
    && (forall x, y | x in table && y in table && x != y :: table[x].inode != table[y].inode)
  }

  lemma ApartLinks(table: map<Word, TableEntry>, files: set<Inode>, x: Word, links: nat)
    requires Apart(table, files) && x in table
    ensures Apart(table[x := table[x].(links := links)], files)
    ensures table[x := table[x].(links := links)].Keys == table.Keys
  {
  }

  lemma ApartGone(table: map<Word, TableEntry>, files: set<Inode>, x: Word)
    requires Apart(table, files) && x in table
    ensures Apart(table - {x}, files - {table[x].inode}) && (table - {x}).Keys == table.Keys - {x}
  {
  }

  lemma ApartNew(table: map<Word, TableEntry>, files: set<Inode>, x: Word, e: TableEntry)
    requires Apart(table, files) && x !in table && e.inode in files && forall y | y in table ::
             table[y].inode != e.inode
    ensures Apart(table[x := e], files)
  {
  }

  lemma ApartMore(table: map<Word, TableEntry>, files: set<Inode>, inode: Inode)
    requires Apart(table, files)
    ensures Apart(table, files + {inode})
  {
  }

  lemma ApartFrom(table: map<Word, TableEntry>, files: set<Inode>, x: Word)
    requires Apart(table, files) && x in table
    ensures forall y | y in table :: table[y].inode in files && (y != x ==> table[y].inode != table[x].inode)
  {
  }

  class Namespace {
    const fs: FileSystem
    var table: map<Word, TableEntry>
    /** Inodes that are allocated and have no record: a creation that found no block for its record leaves one. */
    var stray: set<Word>
    /** The directory entry cache. */
    var cache: PathCache
    /** A lookup took the data of a file for directory records and found one; what follows is not described. */
    var astray: bool

    constructor (fs: FileSystem)
      requires fs.Valid()
      modifies fs`files
      ensures this.fs == fs && Ready() && cache == EMPTY && stray == {} && fresh(fs.files - old(fs.files))
      ensures Nodes() == map[ROOT := Node(true, 1, [])] && Good(Nodes())
    {
      hide Tight, NoneDangling, OneName, UniqueNames, CacheOk, Recs, Tree, ListOf, ContentOf, FileSystem.Valid;
      hide Namespace.Nodes;
      this.fs := fs;
      stray, cache, table, astray := {}, EMPTY, map[], false;
      new;
      var root := fs.NewFile();
      table := map[ROOT := TableEntry(root, true, 1)];
      RecsNone(fs.Contents(root));
      assert NodeOf(ROOT) == Node(true, 1, []);
      NodesAre(map[ROOT := Node(true, 1, [])]);
      OnlyRoot();
      CacheEmpty(Nodes());
      assert Ringed(EMPTY);
    }

    /** The inodes of the table have blocks of their own. */
    ghost predicate Separate()
      reads this`table, fs`files
    {
      Apart(table, fs.files)
    }

    ghost function NodeOf(x: Word): Node
      requires x in table
      reads this`table, fs`blocks, fs`owner, if x in table then {table[x].inode} else {}
    {
      var e := table[x];
      Node(e.isDir, e.links, if e.isDir then Recs(fs.Contents(e.inode)) else [])
    }

    /** A directory is a list of records. */
    ghost predicate TidyAt(x: Word)
      requires x in table
      reads this`table, fs`blocks, fs`owner, if x in table then {table[x].inode} else {}
    {
      table[x].isDir ==> AllTidy(fs.Contents(table[x].inode))
    }

    /** The name space as a value. */
    ghost function Nodes(): Nodes
      requires Separate()
      reads this`table, fs`blocks, fs`owner, fs`files, fs.files
    {
      map x | x in table :: NodeOf(x)
    }

    lemma NodeAt()
      requires Separate()
      ensures Nodes().Keys == table.Keys && forall x | x in table :: Nodes()[x] == NodeOf(x)
    {
    }

    lemma NodesAre(m: Nodes)
      requires Separate() && m.Keys == table.Keys && forall x | x in table :: m[x] == NodeOf(x)
      ensures Nodes() == m
    {
    }

    lemma TableKeys()
      requires Separate()
      ensures Nodes().Keys == table.Keys
      ensures forall x | x in table ::
                table[x].inode in fs.files && Nodes()[x].isDir == table[x].isDir && Nodes()[x].links == table[x].links
    {
    }

    /** The volume is sound, and so are its directories. */
    ghost predicate Base()
      reads this`table, this`stray, fs`blocks, fs`owner, fs`dirty, fs`files, fs.files
    {
      Separate() && fs.Valid() && ROOT in table && forall x | x in table :: x !in stray && TidyAt(x)
    }

    /** Between operations: no dangling record, and the cache agrees with the directories. */
    ghost predicate Ready()
      reads this, fs`blocks, fs`owner, fs`dirty, fs`files, fs.files
    {
      !astray && Separate() && Base() && Shape(Nodes()) && CacheOk(Nodes(), cache.inodes) && Ringed(cache)
    }

    /** What a search of the data of file f for a record of that name comes to. */
    ghost function DataOf(f: Word, name: Name): Outcome
      requires f in table
      reads this`table, fs`blocks, fs`owner, if f in table then {table[f].inode} else {}
    {
      var m := Scanned(fs, table[f].inode, name);
      if m.Matched? && m.inode in table then Found(m.inode) else NotFound
    }

    /** What the source's walk without a cache reports for a path. */
    ghost function WalkOf(path: Path): Outcome
      requires Separate() && UniqueNames(Nodes())
      reads this`table, fs`blocks, fs`owner, fs`files, fs.files
    {
      if ParentOk(Nodes(), path) then Resolve(Nodes(), path)
      else
        var f := Resolve(Nodes(), Above(path)).value;
        if f in table then DataOf(f, path[|path| - 1]) else NotFound
    }

    /** The walk takes the data of a file for a record of the last component. */
    ghost predicate Misled(path: Path)
      requires Separate() && UniqueNames(Nodes())
      reads this`table, fs`blocks, fs`owner, fs`files, fs.files
    {
      !ParentOk(Nodes(), path) && WalkOf(path).Found?
    }

    lemma RootNotMisled(path: Path)
      requires Separate() && Shape(Nodes()) && path == []
      ensures !Misled(path)
    {
    }

    /** The search of one inode: directory records answer what `Child` says, and file data what it happens to hold. */
    method FindChild(d: Word, name: Name) returns (ret: Outcome)
      requires Base() && Shape(Nodes()) && d in table
      ensures ret == if table[d].isDir then Child(Nodes(), d, name) else DataOf(d, name)
      ensures !ret.NotDir? && (ret.Found? ==> ret.value in table)
    {
      hide Recs, Unique, Entries, Scanned;
      ghost var nodes := Nodes();
      var found, x := Find(fs, table[d].inode, name);
      if table[d].isDir {
        DirectoryThere(d);
        assert nodes[d].recs == Recs(fs.Contents(table[d].inode));
        MapsEntries(nodes[d].recs, name, x);
        if found {
          ghost var i := ChildRef(nodes, d, name);
        }
      }
      ret := if found && x in table then Found(x) else NotFound;
    }

    lemma DirectoryThere(x: Word)
      requires Base() && Shape(Nodes()) && x in table && table[x].isDir
      ensures IsDirectory(fs, table[x].inode)
    {
      hide Recs, FileSystem.Valid;
      assert Nodes()[x].recs == Recs(fs.Contents(table[x].inode));
    }

    lemma ChildlessThere(x: Word)
      requires Separate() && Base() && Shape(Nodes()) && x in table
      ensures Childless(Nodes(), x) <==> !table[x].isDir || !AnyLive(Recs(fs.Contents(table[x].inode)))
    {
      hide Recs, FileSystem.Valid, NoneDangling, OneName, Unique;
      assert table[x].isDir ==> Nodes()[x].recs == Recs(fs.Contents(table[x].inode));
    }

    /** What component i of the path leads to: the last one below a file is searched for in its data. */
    ghost function StepOf(path: Path, i: nat): Outcome
      requires Separate() && UniqueNames(Nodes()) && i < |path|
      reads this`table, fs`blocks, fs`owner, fs`files, fs.files
    {
      if i == |path| - 1 then WalkOf(path) else Resolve(Nodes(), path[..i + 1])
    }

    /** The walk finds the first i components of the path. */
    ghost predicate Passed(path: Path, i: nat)
      requires Separate() && UniqueNames(Nodes()) && i <= |path|
      reads this`table, fs`blocks, fs`owner, fs`files, fs.files
    {
      forall j | 0 <= j < i :: StepOf(path, j).Found?
    }

    /** The walk finds the first i components of the path and no more. */
    ghost predicate Reached(path: Path, i: nat)
      requires Separate() && UniqueNames(Nodes())
      reads this`table, fs`blocks, fs`owner, fs`files, fs.files
    {
      i <= |path| && Passed(path, i) && (i < |path| ==> !StepOf(path, i).Found?)
    }

    /** The components that the walk finds, and no others, were cached and brought to the front of their rings. */
    ghost predicate Traced(a: PathCache, c: PathCache, path: Path)
      requires Separate() && UniqueNames(Nodes())
      reads this`table, fs`blocks, fs`owner, fs`files, fs.files
    {
      exists i: nat :: Reached(path, i) && CachedTo(a, c, path, i) && BroughtTo(a, c, path, i)
    }

    /**
     * A component that is not cached is searched for, with the inode loaded first; only before the last
     * is a file refused.
     */
    method Search(path: Path, i: nat, inode0: Word, result0: Word, hit0: bool) returns (ret: Outcome, inode: Word)
      requires Ready() && i < |path| && Resolve(Nodes(), path[..i]) == Found(result0)
      requires if hit0 then path[..i] in cache.inodes && cache.inodes[path[..i]] == result0 else inode0 == result0
      ensures Separate() && UniqueNames(Nodes())
      ensures ret == StepOf(path, i) && (ret.Found? ==> ret.value in table && inode == result0)
    {
      hide UniqueNames, NoneDangling, OneName, CacheOk, Rooted, Child, Resolve, Recs, Base, Separate, Namespace.Nodes;
      hide Ringed, DataOf, ParentOk;
      ghost var nodes := Nodes();
      TableKeys();
      ResolveThere(nodes, path[..i]);
      StepPlace(nodes, path, i);
      inode := inode0;
      if hit0 {
        inode := cache.inodes[path[..i]];
        if inode !in table { return NotFound, inode; }
      }
      if i < |path| - 1 && !table[inode].isDir {
        return NotDir, inode;
      }
      ret := FindChild(inode, path[i]);
    }

    /**
     * One component of `inode_lookup`: from the cache when it is there, else from the directory and into
     * the cache.
     */
    method LookupStep(path: Path, i: nat, inode0: Word, result0: Word, hit0: bool)
      returns (ret: Outcome, inode: Word, hit: bool)
      requires Ready() && i < |path|
      requires Resolve(Nodes(), path[..i]) == Found(result0)
      requires i > 0 ==> path[..i] in cache.inodes && cache.inodes[path[..i]] == result0
      requires if hit0 then i > 0 else inode0 == result0
      modifies this`cache, this`astray
      ensures Separate() && Base() && Nodes() == old(Nodes()) && (!astray ==> Ready())
      ensures ret == StepOf(path, i) && (ret.Found? ==> ret.value in table)
      ensures astray <==> i == |path| - 1 && !ParentOk(Nodes(), path) && ret.Found?
      ensures !astray && ret.Found? ==> path[..i + 1] in cache.inodes && cache.inodes[path[..i + 1]] == ret.value
      ensures !astray && ret.Found? ==> hit || inode == ret.value
      ensures if ret.Found? then Fetched(old(cache), cache, path[..i], path[i]) else cache == old(cache)
    {
      hide Shape, CacheOk, Rooted, Child, Resolve, Recs, Base, Separate, Namespace.Nodes, Ringed, Hit;
      hide Missed, Fetched, DataOf, ParentOk;
      ghost var nodes := Nodes();
      TableKeys();
      var up, here, next := path[..i], path[..i + 1], cache;
      assert here == up + [path[i]];
      inode, hit := inode0, hit0;
      StepPlace(nodes, path, i);
      var strayed := false;
      if here in cache.inodes {
        HitStep(nodes, cache, up, path[i]);
        hit := true;
        ret := Found(cache.inodes[here]);
        next := Hit(cache, up, path[i]);
      } else {
        ret, inode := Search(path, i, inode0, result0, hit0);
        if ret.Found? {
          MissStep(nodes, cache, up, path[i], ret.value);
          strayed := !table[inode].isDir;
          inode, hit := ret.value, false;
          next := Missed(cache, up, path[i], ret.value);
        }
      }
      cache, astray := next, strayed;
    }

    /**
     * `inode_lookup(path, …)` with the cache returns what the source's walk without a cache returns.
     * That is what the directories say exactly when the parent of the last component is not a file.
     * Unless file data was taken for a record, the cache is right afterwards; every component found is
     * at the front of its ring, and no other ring moves.
     */
    method Lookup(path: Path) returns (ret: Outcome)
      requires Ready()
      modifies this`cache, this`astray
      ensures Separate() && Base() && Nodes() == old(Nodes()) && (!astray ==> Ready())
      ensures ret == WalkOf(path)
      ensures ret == Resolve(Nodes(), path) <==> ParentOk(Nodes(), path)
      ensures astray <==> !ParentOk(Nodes(), path) && ret.Found?
      ensures astray <==> Misled(path)
      ensures !astray ==> ret == Walked(Nodes(), path)
      ensures ret.Found? ==> ret.value in table
      ensures ret.Found? ==> Fronts(cache, path, |path|)
      ensures RingsMoved(old(cache), cache, path)
      ensures Traced(old(cache), cache, path)
    {
      hide UniqueNames, NoneDangling, OneName, Child, Resolve, Recs, Base, CacheOk, Separate, Namespace.Nodes, Ringed;
      hide Fronts, RingsMoved, ParentOk, DataOf, CachedTo, BroughtTo, Fetched, Passed;
      ghost var nodes := Nodes();
      TableKeys();
      WalkedExact(nodes, path);
      WalkCases(path);
      assert path[..|path|] == path;
      ResolveRoot(nodes, path[..0]);
      var inode, hit, i := ROOT, false, 0;
      ret := Found(ROOT);
      ResolveThere(nodes, path[..0]);
      NothingBrought(cache, path);
      NothingPassed(path);
      while i < |path|
        invariant i <= |path| && Separate() && Base() && Nodes() == nodes && (!astray ==> Ready())
        invariant ret.Found? && ret.value in table
                  && if i == |path| then ret == WalkOf(path) else Resolve(nodes, path[..i]) == ret
        invariant astray <==> i == |path| > 0 && !ParentOk(nodes, path)
        invariant !astray && i > 0 ==> path[..i] in cache.inodes && cache.inodes[path[..i]] == ret.value
        invariant !astray ==> if hit then i > 0 else inode == ret.value
        invariant CachedTo(old(cache), cache, path, i) && BroughtTo(old(cache), cache, path, i) && Passed(path, i)
      {
        ghost var c := cache;
        ret, inode, hit := LookupStep(path, i, inode, ret.value, hit);
        if !ret.Found? {
          if i < |path| - 1 {
            StuckParent(nodes, path, i + 1);
          }
          BroughtMeans(old(cache), cache, path, i);
          assert Reached(path, i);
          return;
        }
        CachedMore(old(cache), c, cache, path, i);
        BroughtMore(old(cache), c, cache, path, i);
        OnePassed(path, i);
        i := i + 1;
      }
      BroughtMeans(old(cache), cache, path, i);
      assert Reached(path, i);
    }

    lemma NothingPassed(path: Path)
      requires Separate() && UniqueNames(Nodes())
      ensures Passed(path, 0)
    {
    }

    lemma OnePassed(path: Path, i: nat)
      requires Separate() && UniqueNames(Nodes()) && i < |path| && Passed(path, i) && StepOf(path, i).Found?
      ensures Passed(path, i + 1)
    {
    }

    lemma WalkCases(path: Path)
      requires Separate() && Shape(Nodes())
      ensures ParentOk(Nodes(), path) ==> WalkOf(path) == Resolve(Nodes(), path)
      ensures !ParentOk(Nodes(), path) ==> !WalkOf(path).NotDir?
      ensures path == [] ==> ParentOk(Nodes(), path)
    {
    }

    // ---- records ----

    /** The check for an existing name before a record is made. */
    method CheckName(d: Word, name: Name) returns (found: bool, x: Word, hasLast: bool, last: Word)
      requires Base() && Shape(Nodes()) && d in table && table[d].isDir
      ensures found <==> Child(Nodes(), d, name).Found?
      ensures found ==> Child(Nodes(), d, name) == Found(x) && x in table
      ensures !found ==> !Named(Recs(fs.Contents(table[d].inode)), name) && !Named(Nodes()[d].recs, name)
      ensures !found ==> Child(Nodes(), d, name) == NotFound
      ensures LastBlock(d, hasLast, last)
    {
      hide Recs, Unique, Entries, OneName, NoneDangling, Named, Maps;
      ghost var nodes := Nodes();
      assert nodes[d].recs == Recs(fs.Contents(table[d].inode));
      found, x, hasLast, last := Scan(fs, table[d].inode, name);
      MapsEntries(nodes[d].recs, name, x);
      if found {
        ChildThere(nodes, d, name);
      }
    }

    /** The last block of directory d, if it has any. */
    ghost predicate LastBlock(d: Word, hasLast: bool, last: Word)
      requires d in table
      reads this`table, fs`blocks, fs`owner, table[d].inode
    {
      var dir := table[d].inode;
      (hasLast <==> dir.Count() > 0) && (hasLast ==> last == fs.DataList(dir)[dir.Count() - 1])
    }

    /** `dentry_create` for directory d. */
    method AddName(d: Word, hasLast: bool, last: Word, name: Name, x: Word, fileType: Byte) returns (ok: bool)
      requires Base() && Shape(Nodes()) && d in table && table[d].isDir
      requires !Named(Recs(fs.Contents(table[d].inode)), name) && LastBlock(d, hasLast, last)
      modifies fs`blocks, fs`dirty, fs`owner, fs`refused, table[d].inode`block, table[d].inode`iBlocks
      ensures Separate() && Base() && fs.refused == old(fs.refused) + if ok then 0 else 1
      ensures Nodes() == if ok then WithRecord(old(Nodes()), d, NewRec(name, x, fileType)) else old(Nodes())
    {
      hide Recs, Unique, Entries, Marks, Tree, ListOf, ContentOf, AllTidy, FileSystem.Valid, NoneDangling, OneName;
      hide Named, TripleEntry, Namespace.Nodes, FileSystem.Contents, FileSystem.DataList, Apart;
      ghost var nodes, dir := Nodes(), table[d].inode;
      NodeAt();
      ApartFrom(table, fs.files, d);
      assert nodes[d].recs == Recs(fs.Contents(dir));
      ok := AddRecord(fs, table[d].inode, hasLast, last, name, x, fileType);
      forall y | y in table && y != d ensures NodeOf(y) == old(NodeOf(y)) && TidyAt(y) {
      }
      ghost var r := NewRec(name, x, fileType);
      assert NodeOf(d) == if ok then old(NodeOf(d)).(recs := old(NodeOf(d)).recs + [r]) else old(NodeOf(d));
      NodesAre(if ok then WithRecord(nodes, d, r) else nodes);
    }
  
    // ---- creating ----

    /**
     * `alloc_inode`: any inode number that is free, or a refusal.  `newGroup` says that the inode comes
     * from a new block group, in which case it is left without the initial link.
     */
    method AllocInode() returns (ok: bool, x: Word, inode: Inode, newGroup: bool)
      requires Base()
      modifies this`stray, fs`files, fs`refused, fs`grouped
      ensures Separate() && Base() && Nodes() == old(Nodes())
      ensures fs.refused == old(fs.refused) + if ok then 0 else 1
      ensures fs.grouped == old(fs.grouped) + if newGroup then 1 else 0
      ensures fs.files == old(fs.files) + {inode}
      ensures fresh(inode) && inode in fs.files && inode.Count() == 0
      ensures ok ==> x !in table && x !in old(stray) && stray == old(stray) + {x}
      ensures !ok ==> stray == old(stray)
    {
      hide AllTidy, FileSystem.Valid, Namespace.Nodes, FileSystem.Contents, Apart;
      ok, x, newGroup := false, 0, false;
      inode := AddFile();
      if * {
        if y: Word :| y !in table && y !in stray {
          ok, x, newGroup, stray := true, y, *, stray + {y};
          fs.grouped := fs.grouped + if newGroup then 1 else 0;
          return;
        }
      }
      fs.refused := fs.refused + 1;
    }

    /** A new inode of the volume is none of the table yet. */
    method AddFile() returns (inode: Inode)
      requires Base()
      modifies fs`files
      ensures Separate() && Base() && Nodes() == old(Nodes())
      ensures fs.files == old(fs.files) + {inode} && fresh(inode) && inode.Count() == 0
    {
      hide Recs, AllTidy, Tree, FileSystem.Valid, Namespace.Nodes, FileSystem.Contents, FileSystem.DataList, Apart;
      ghost var nodes := Nodes();
      NodeAt();
      inode := fs.NewFile();
      ApartMore(table, old(fs.files), inode);
      assert forall y | y in table :: NodeOf(y) == old(NodeOf(y)) && TidyAt(y);
      NodesAre(nodes);
    }

    /** The new inode leaves the strays: it has a record now. */
    method Enter(x: Word, inode: Inode, isDir: bool, links: nat)
      requires Base() && x in stray && inode in fs.files && inode.Count() == 0
      requires forall y | y in table :: table[y].inode != inode
      modifies this`table, this`stray
      ensures Separate() && Base() && Nodes() == old(Nodes())[x := Node(isDir, links, [])] && stray == old(stray) - {x}
    {
      hide Recs, FileSystem.Valid, Namespace.Nodes, FileSystem.DataList, Apart;
      ghost var nodes := Nodes();
      NodeAt();
      ApartNew(table, fs.files, x, TableEntry(inode, isDir, links));
      table, stray := table[x := TableEntry(inode, isDir, links)], stray - {x};
      RecsNone(fs.Contents(inode));
      assert NodeOf(x) == Node(isDir, links, []);
      assert forall y | y in old(table) :: NodeOf(y) == old(NodeOf(y)) && TidyAt(y);
      NodesAre(nodes[x := Node(isDir, links, [])]);
    }

    /** A file or directory x called name is made in directory d. */
    method CreateIn(d: Word, hasLast: bool, last: Word, name: Name, isDir: bool, fileType: Byte)
      returns (ok: bool, x: Word, newGroup: bool)
      requires Separate() && Base() && Shape(Nodes()) && d in table && table[d].isDir
      requires !Named(Recs(fs.Contents(table[d].inode)), name) && LastBlock(d, hasLast, last)
      modifies this`table, this`stray, fs, table[d].inode
      ensures Separate() && Base() && fresh(fs.files - old(fs.files))
      ensures fs.refused == old(fs.refused) + if ok then 0 else 1
      ensures fs.grouped == old(fs.grouped) + if newGroup then 1 else 0
      ensures ok ==> x !in old(table) && x !in old(stray) && stray == old(stray)
      ensures ok ==> Nodes() == Created(old(Nodes()), d, NewRec(name, x, fileType), isDir, if newGroup then 0 else 1)
      ensures !ok ==> Nodes() == old(Nodes()) && stray >= old(stray)
    {
      hide Shape, Recs, NodeOf, Named, Base, LastBlock, Created;
      ghost var nodes := Nodes();
      var inode;
      ok, x, inode, newGroup := AllocInode();
      if ok {
        ok := AddName(d, hasLast, last, name, x, fileType);
        if ok {
          CreatedEither(nodes, d, NewRec(name, x, fileType), isDir, if newGroup then 0 else 1);
          Enter(x, inode, isDir, if newGroup then 0 else 1);
        }
      }
    }
  
    /** The checks before a name is made: its directory is looked up, and the name must be free there. */
    method FreePlace(path: Path) returns (code: Code, d: Word, hasLast: bool, last: Word)
      requires Ready()
      modifies this`cache, this`astray
      ensures Separate() && Base() && Nodes() == old(Nodes()) && (code != StrayErr ==> Ready())
      ensures code == StrayErr <==> Misled(Above(path))
      ensures code != StrayErr ==> code == CreateCode(Nodes(), path) && code != AllocErr
      ensures code == Success ==> path != [] && d in table && table[d].isDir && LastBlock(d, hasLast, last)
      ensures code == Success ==> Resolve(Nodes(), Above(path)) == Found(d) && !Named(Nodes()[d].recs, path[|path| - 1])
      ensures code == Success ==> !Named(Recs(fs.Contents(table[d].inode)), path[|path| - 1])
    {
      hide UniqueNames, NoneDangling, OneName, Child, Resolve, Recs, Base, Named, CacheOk, Ringed, Front;
      hide Fronts, RingsMoved, ParentOk, LastBlock, Separate, Namespace.Nodes, FileSystem.Contents;
      hide Misled, WalkOf, Traced;
      ghost var nodes := Nodes();
      TableKeys();
      RootNotMisled([]);
      d, hasLast, last := 0, false, 0;
      if path == [] { return DupErr, d, hasLast, last; }
      var name := path[|path| - 1];
      var ret := Lookup(path[..|path| - 1]);
      if astray { return StrayErr, d, hasLast, last; }
      if !ret.Found? { return CodeOf(ret), d, hasLast, last; }
      d := ret.value;
      if !table[d].isDir {
        ChildOfFile(nodes, d, name);
        return NotDirErr, d, hasLast, last;
      }
      var found, x;
      found, x, hasLast, last := CheckName(d, name);
      code := if found then DupErr else Success;
    }

    /** `inode_create`: a new inode under a name that was free, or an error and no change to the name space. */
    method Create(path: Path, isDir: bool, fileType: Byte) returns (code: Code, x: Word, newGroup: bool)
      requires Ready()
      modifies this, fs, fs.files
      ensures Separate() && Base() && fresh(fs.files - old(fs.files)) && (code != StrayErr ==> Ready())
      ensures fs.refused == old(fs.refused) + if code == AllocErr then 1 else 0
      ensures fs.grouped == old(fs.grouped) + if newGroup then 1 else 0
      ensures code == StrayErr <==> old(Misled(Above(path)))
      ensures code != StrayErr ==>
                code == CreateCode(old(Nodes()), path)
                    || (code == AllocErr && CreateCode(old(Nodes()), path) == Success)
      ensures code != Success ==> Nodes() == old(Nodes())
      ensures code == Success ==> CreateDone(old(Nodes()), Nodes(), path, x, fileType, isDir, if newGroup then 0 else 1)
      ensures old(Good(Nodes())) && (code == Success ==> !newGroup) ==> Good(Nodes())
    {
      hide UniqueNames, NoneDangling, OneName, Child, Resolve, Recs, Base, Named, Created, CacheOk, Ringed, CreateCode;
      hide ParentOk, Good, LastBlock, Separate, Namespace.Nodes, FileSystem.Contents, FileSystem.DataList, Misled;
      ghost var nodes := Nodes();
      x, newGroup := 0, false;
      var d, hasLast, last;
      code, d, hasLast, last := FreePlace(path);
      if code != Success { return; }
      TableKeys();
      var name, ok := path[|path| - 1], false;
      ok, x, newGroup := CreateIn(d, hasLast, last, name, isDir, fileType);
      if !ok { return AllocErr, x, newGroup; }
      CreatedReady(nodes, cache.inodes, path, d, NewRec(name, x, fileType), isDir, if newGroup then 0 else 1);
      code := Success;
    }
  
    // ---- linking ----

    method SetLinks(x: Word, links: nat)
      requires Separate() && Base() && x in table
      modifies this`table
      ensures Separate() && Base() && table.Keys == old(table.Keys)
      ensures Nodes() == WithLinks(old(Nodes()), x, links) && table[x].isDir == old(table[x].isDir)
    {
      hide Recs, FileSystem.Valid, AllTidy, Namespace.Nodes, FileSystem.Contents, FileSystem.DataList, Apart;
      ghost var nodes := Nodes();
      NodeAt();
      ApartLinks(table, fs.files, x, links);
      table := table[x := table[x].(links := links)];
      assert forall y | y in table && y != x :: NodeOf(y) == old(NodeOf(y)) && TidyAt(y);
      assert NodeOf(x) == old(NodeOf(x)).(links := links);
      NodesAre(WithLinks(nodes, x, links));
    }

    /** File x gets a record in directory d and one link more. */
    method LinkIn(d: Word, hasLast: bool, last: Word, name: Name, x: Word) returns (ok: bool)
      requires Separate() && Base() && Shape(Nodes()) && d in table && table[d].isDir && x in table && x != d
      requires !Named(Recs(fs.Contents(table[d].inode)), name) && LastBlock(d, hasLast, last)
      modifies this`table, fs`blocks, fs`dirty, fs`owner, fs`refused, table[d].inode
      ensures Separate() && Base() && table.Keys == old(table.Keys)
      ensures fs.refused == old(fs.refused) + if ok then 0 else 1
      ensures Nodes() == if ok then Linked(old(Nodes()), d, NewRec(name, x, REGULAR)) else old(Nodes())
    {
      hide Shape, Recs, Named, Base, LastBlock, Separate, Namespace.Nodes;
      TableKeys();
      ok := AddName(d, hasLast, last, name, x, REGULAR);
      if ok {
        SetLinks(x, (table[x].links + 1) % LINKS);
      }
    }

    /** `inode_link`: a second name for a file, or an error and no change to the name space. */
    method Link(src: Path, dst: Path) returns (code: Code, few: bool)
      requires Ready()
      modifies this, fs, fs.files
      ensures Separate() && Base() && fs.files == old(fs.files) && (code != StrayErr ==> Ready())
      ensures fs.grouped == old(fs.grouped) && fs.refused == old(fs.refused) + if code == AllocErr then 1 else 0
      ensures code == StrayErr <==>
                src != [] && dst != []
                && (old(Misled(src)) || (LeadsToFile(old(Nodes()), src) && old(Misled(Above(dst)))))
      ensures code != StrayErr ==>
                code == LinkCode(old(Nodes()), src, dst)
                    || (code == AllocErr && LinkCode(old(Nodes()), src, dst) == Success)
      ensures code != Success ==> Nodes() == old(Nodes())
      ensures code == Success ==> LinkDone(old(Nodes()), Nodes(), src, dst)
      ensures code == Success ==> few == FewNames(old(Nodes()), src)
      ensures code == Success && old(Good(Nodes())) ==> (Good(Nodes()) <==> few)
    {
      hide UniqueNames, NoneDangling, OneName, Child, Resolve, Recs, Base, Named, Linked, CacheOk, Ringed, Front;
      hide Fronts, Traced;
      hide RingsMoved, ParentOk, Good, LastBlock, Separate, Namespace.Nodes, FileSystem.Contents, CreateCode;
      hide FileSystem.DataList, Misled, WalkOf;
      ghost var nodes := Nodes();
      TableKeys();
      few := true;
      if src == [] || dst == [] { return DupErr, few; }
      WalkedExact(nodes, src);
      var ret := Lookup(src);
      if astray { return StrayErr, few; }
      if !ret.Found? { return CodeOf(ret), few; }
      var x := ret.value;
      few := table[x].links < LINKS - 1;
      if table[x].isDir { return DirErr, few; }
      var d, hasLast, last;
      code, d, hasLast, last := FreePlace(dst);
      if code != Success { return; }
      var name := dst[|dst| - 1];
      var ok := LinkIn(d, hasLast, last, name, x);
      if !ok { return AllocErr, few; }
      LinkedReady(nodes, cache.inodes, src, dst, d, NewRec(name, x, REGULAR));
      code := Success;
    }

    // ---- unlinking ----

    /** The record of that name in directory d is erased. */
    method EraseName(d: Word, name: Name) returns (found: bool, x: Word, ghost i: nat)
      requires Separate() && Base() && Shape(Nodes()) && d in table && table[d].isDir
      modifies fs`blocks, fs`dirty
      ensures Separate() && Base()
      ensures found <==> Child(old(Nodes()), d, name).Found?
      ensures !found ==> Nodes() == old(Nodes()) && Child(Nodes(), d, name) == NotFound
      ensures found ==> RefAt(old(Nodes()), d, i, x) && old(Nodes())[d].recs[i].text == name
      ensures found ==> Child(old(Nodes()), d, name) == Found(x) && Nodes() == WithoutRecord(old(Nodes()), d, i)
    {
      hide Recs, Unique, Entries, Marks, Tree, ListOf, ContentOf, AllTidy, FileSystem.Valid, NoneDangling, OneName;
      hide Named, Maps, Namespace.Nodes, FileSystem.Contents, FileSystem.DataList, Apart;
      ghost var nodes, dir := Nodes(), table[d].inode;
      NodeAt();
      ApartFrom(table, fs.files, d);
      ghost var recs := Recs(fs.Contents(dir));
      assert nodes[d].recs == recs;
      found, x := EraseRecord(fs, table[d].inode, name);
      MapsEntries(recs, name, x);
      i := 0;
      forall y | y in table && y != d ensures NodeOf(y) == old(NodeOf(y)) && TidyAt(y) {
      }
      if found {
        ErasesEntries(recs, Recs(fs.Contents(dir)), name, x);
        i :| i < |recs| && IsLive(recs[i]) && recs[i].text == name && recs[i].inode == x
             && Recs(fs.Contents(dir)) == recs[i := Erased(recs[i])];
        assert NodeOf(d) == old(NodeOf(d)).(recs := recs[i := Erased(recs[i])]);
        NodesAre(WithoutRecord(nodes, d, i));
      } else {
        assert NodeOf(d) == old(NodeOf(d));
        NodesAre(nodes);
      }
    }

    /** The blocks of the inode go back to the volume, as far as they do. */
    method DropBlocks(x: Word)
      requires Separate() && Base() && x in table && Childless(Nodes(), x)
      modifies fs
      ensures fs.refused == old(fs.refused) && fs.grouped == old(fs.grouped)
      ensures fs.Valid() && fs.files == old(fs.files) - {table[x].inode}
      ensures forall y | y in table && y != x :: NodeOf(y) == old(NodeOf(y)) && TidyAt(y)
    {
      hide Recs, Tree, ListOf, ContentOf, FileSystem.Valid, FileSystem.Contents, FileSystem.DataList, Apart;
      ghost var gone := table[x].inode;
      ApartFrom(table, fs.files, x);
      if table[x].isDir {
        assert Recs(fs.Contents(table[x].inode)) == Nodes()[x].recs;
        var children := DeleteDirectory(fs, table[x].inode);
      } else {
        DeleteFile(fs, table[x].inode);
      }
      forall y | y in table && y != x ensures NodeOf(y) == old(NodeOf(y)) && TidyAt(y) {
        assert table[y].inode != gone && old(TidyAt(y));
      }
    }

    /** `inode_delete` of a file or an empty directory: the inode is free. */
    method FreeInode(x: Word)
      requires Separate() && Base() && x in table && x != ROOT && Childless(Nodes(), x)
      modifies this`table, fs
      ensures fs.files <= old(fs.files) && fs.refused == old(fs.refused) && fs.grouped == old(fs.grouped)
      ensures Separate() && Base() && Nodes() == old(Nodes()) - {x} && table.Keys == old(table.Keys) - {x}
    {
      hide FileSystem.Valid, FileSystem.Contents, Namespace.Nodes, Recs, AllTidy, Apart;
      ghost var nodes := Nodes();
      NodeAt();
      ApartGone(table, fs.files, x);
      DropBlocks(x);
      table := table - {x};
      NodesAre(nodes - {x});
    }
  
    /** The end of `inode_unlink`: one link less, and the inode is freed when none is left. */
    method DropLink(x: Word)
      requires Separate() && Base() && x in table && x != ROOT && Childless(Nodes(), x)
      modifies this`table, fs
      ensures Separate() && Base() && fs.files <= old(fs.files)
      ensures fs.refused == old(fs.refused) && fs.grouped == old(fs.grouped)
      ensures var links := (old(table[x].links) + LINKS - 1) % LINKS;
              Nodes() == if links == 0 then old(Nodes()) - {x} else WithLinks(old(Nodes()), x, links)
    {
      hide Base, Separate, Namespace.Nodes;
      ghost var nodes := Nodes();
      TableKeys();
      var links := (table[x].links + LINKS - 1) % LINKS;
      SetLinks(x, links);
      if links == 0 {
        assert WithLinks(nodes, x, 0) - {x} == nodes - {x};
        FreeInode(x);
      }
    }

    /** The removal of a name from its directory, once that is found: record, cached subtree and link go. */
    method UnlinkIn(path: Path, d: Word) returns (found: bool, ghost i: nat, ghost x: Word)
      requires Ready() && path != [] && Resolve(Nodes(), Above(path)) == Found(d) && d in table && table[d].isDir
      requires var r := Resolve(Nodes(), path); r.Found? ==> Childless(Nodes(), r.value)
      requires Removable(cache, Above(path), path[|path| - 1])
      modifies this`table, this`cache, fs
      ensures Separate() && Base() && fs.files <= old(fs.files)
      ensures fs.refused == old(fs.refused) && fs.grouped == old(fs.grouped)
      ensures UniqueNames(Nodes()) && CacheOk(Nodes(), cache.inodes) && Ringed(cache)
      ensures Child(old(Nodes()), d, path[|path| - 1]) == if found then Found(x) else NotFound
      ensures !found ==> Nodes() == old(Nodes())
      ensures found ==> UnlinkDone(old(Nodes()), Nodes(), path, d, i, x) && (Shape(Nodes()) <==> NoneDangling(Nodes()))
      ensures old(Good(Nodes())) ==> Good(Nodes())
    {
      hide UniqueNames, NoneDangling, OneName, Child, Resolve, Recs, Base, WithoutRecord, CacheOk, Ringed, Rooted;
      hide PathCaches.Removed, Removable, Good, Separate, Namespace.Nodes, Childless;
      ghost var nodes := Nodes();
      TableKeys();
      var name := path[|path| - 1];
      var y;
      found, y, i := EraseName(d, name);
      x := y;
      if !found { return; }
      ResolveLast(nodes, path);
      ChildlessKept(nodes, d, i, x);
      UnlinkedReady(nodes, cache.inodes, path, d, i, x);
      CacheRooted(nodes, cache.inodes);
      RemovedRinged(cache, path[..|path| - 1], name);
      assert path[..|path| - 1] + [name] == path;
      cache := PathCaches.Removed(cache, path[..|path| - 1], name);
      DropLink(y);
    }

    /**
     * `inode_unlink` of a file or an empty directory: the name goes, from the directory and with all
     * below it from the cache, and the inode is freed when its link count comes to zero.
     */
    method Unlink(path: Path) returns (code: Code, ghost d: Word, ghost i: nat, ghost x: Word)
      requires Ready()
      requires var r := Resolve(Nodes(), path); r.Found? ==> Childless(Nodes(), r.value)
      requires path != [] ==> Removable(cache, Above(path), path[|path| - 1])
      modifies this, fs
      ensures fs.files <= old(fs.files) && fs.refused == old(fs.refused) && fs.grouped == old(fs.grouped)
      ensures code == StrayErr <==> old(Misled(Above(path)))
      ensures code != StrayErr ==> code == UnlinkCode(old(Nodes()), path)
      ensures Separate() && Base() && UniqueNames(Nodes())
      ensures code != StrayErr ==> CacheOk(Nodes(), cache.inodes) && Ringed(cache)
      ensures code != Success ==> Nodes() == old(Nodes()) && (code != StrayErr ==> Ready())
      ensures code == Success ==> UnlinkDone(old(Nodes()), Nodes(), path, d, i, x)
      ensures code == Success ==> (Ready() <==> NoneDangling(Nodes()))
      ensures old(Good(Nodes())) ==> Good(Nodes()) && (code != StrayErr ==> Ready())
    {
      hide UniqueNames, NoneDangling, OneName, Child, Resolve, Recs, Base, CacheOk, Ringed, UnlinkDone;
      hide Front, Fronts, RingsMoved, ParentOk, Removable, Tight, Separate, Namespace.Nodes, Childless;
      hide Misled, WalkOf, Traced;
      ghost var nodes := Nodes();
      TableKeys();
      RootNotMisled([]);
      d, i, x := 0, 0, 0;
      if path == [] { code := InvalidErr; return; }
      var ret := Lookup(path[..|path| - 1]);
      if astray { code := StrayErr; return; }
      if !ret.Found? { code := CodeOf(ret); return; }
      var dir := ret.value;
      d := dir;
      if !table[dir].isDir {
        ChildOfFile(nodes, dir, path[|path| - 1]);
        code := NotDirErr;
        return;
      }
      RemovableKept(old(cache), cache, path[..|path| - 1], path[|path| - 1]);
      var found;
      found, i, x := UnlinkIn(path, dir);
      code := if found then Success else NotFoundErr;
    }

    // ---- runs ----

    /** `fuse_unlink` of a file and `fuse_rmdir` of a directory, which must be empty: a lookup, then the unlink. */
    method Remove(path: Path) returns (code: Code)
      requires Ready()
      modifies this, fs
      ensures fs.files <= old(fs.files) && Separate() && Base()
      ensures fs.refused == old(fs.refused) && fs.grouped == old(fs.grouped)
      ensures code == StrayErr <==> old(Misled(path))
      ensures code != StrayErr ==> code == RemoveCode(old(Nodes()), path)
      ensures code != Success ==> Nodes() == old(Nodes()) && (code != StrayErr ==> Ready())
      ensures code == Success ==> exists d, i, x :: UnlinkDone(old(Nodes()), Nodes(), path, d, i, x)
      ensures old(Good(Nodes())) ==> Good(Nodes()) && (code != StrayErr ==> Ready())
    {
      hide Resolve, Child, CacheOk, UniqueNames, NoneDangling, OneName, Good, Recs, UnlinkDone, ParentOk, Ringed, Front;
      hide Fronts, RingsMoved, Traced, Removable, DataOf, Base, Separate, Namespace.Nodes, Childless;
      ghost var nodes := Nodes();
      TableKeys();
      var ret := Lookup(path);
      if astray { return StrayErr; }
      if !ret.Found? { return CodeOf(ret); }
      FoundParents(nodes, path);
      var x := ret.value;
      ChildlessThere(x);
      if table[x].isDir {
        DirectoryThere(x);
        var empty := IsEmpty(fs, table[x].inode);
        if !empty { return NotEmptyErr; }
      }
      if path != [] {
        FrontRemovable(cache, path);
        ResolveLast(nodes, path);
      }
      ghost var d, i, y;
      code, d, i, y := Unlink(path);
    }

    /** One request: its answer and its effect are those of the simple view, and a sane one keeps the invariant. */
    method Step(op: Op) returns (code: Code, sane: bool)
      requires Ready() && Good(Nodes())
      modifies this, fs, fs.files
      ensures fresh(fs.files - old(fs.files)) && Separate() && Base()
      ensures Stepped(old(Nodes()), op, code, sane, Nodes())
      ensures sane ==> Ready() && Good(Nodes())
      ensures fs.refused == old(fs.refused) + if code == AllocErr then 1 else 0
      ensures fs.grouped >= old(fs.grouped) && (!sane ==> Upset(op, code, fs.grouped > old(fs.grouped)))
      ensures op.CreateOp? && code == Success ==> (sane <==> fs.grouped == old(fs.grouped))
    {
      hide Resolve, Child, Base, CacheOk, UniqueNames, NoneDangling, OneName, Good, Separate, Namespace.Nodes;
      hide ParentOk, Walked, Ringed, Front, Fronts, RingsMoved, DataOf, Traced;
      ghost var nodes := Nodes();
      match op
      case LookupOp(path) =>
        var ret := Lookup(path);
        code := if astray then StrayErr else CodeOf(ret);
        sane := !astray;
      case CreateOp(path, isDir, fileType) =>
        var x, newGroup;
        code, x, newGroup := Create(path, isDir, fileType);
        sane := code != StrayErr && (code != Success || !newGroup);
        assert code == Success ==> CreatedSome(nodes, Nodes(), path, fileType, isDir, if newGroup then 0 else 1);
      case LinkOp(src, dst) =>
        code, sane := LinkStep(src, dst);
      case RemoveOp(path) =>
        code := Remove(path);
        sane := code != StrayErr;
    }

    method LinkStep(src: Path, dst: Path) returns (code: Code, sane: bool)
      requires Ready() && Good(Nodes())
      modifies this, fs, fs.files
      ensures fs.files == old(fs.files) && Separate() && Base()
      ensures fs.grouped == old(fs.grouped) && fs.refused == old(fs.refused) + if code == AllocErr then 1 else 0
      ensures Stepped(old(Nodes()), LinkOp(src, dst), code, sane, Nodes())
      ensures sane ==> Ready() && Good(Nodes())
    {
      hide Resolve, Child, Base, CacheOk, UniqueNames, NoneDangling, OneName, Good, Separate, Namespace.Nodes;
      hide ParentOk, Walked, Ringed, Front, Fronts, RingsMoved, DataOf, Traced;
      ghost var nodes := Nodes();
      var few;
      code, few := Link(src, dst);
      sane := code != StrayErr && (code != Success || few);
    }

    /**
     * Any run of lookups, creations, links and removals follows the simple view step by step, and
     * keeps the invariant: link counts are the numbers of names, no record dangles, no inode is
     * nameless, and the cache agrees with the directories.  It ends early only after an insane step.
     */
    method Run(ops: seq<Op>) returns (codes: seq<Code>, sane: bool, ghost trace: seq<Nodes>)
      requires Ready() && Good(Nodes())
      modifies this, fs, fs.files
      ensures fresh(fs.files - old(fs.files)) && Separate()
      ensures Follows(trace, ops, codes, sane) && trace[0] == old(Nodes()) && trace[|codes|] == Nodes()
      ensures sane ==> Ready() && Good(Nodes())
      ensures fs.refused == old(fs.refused) + Refusals(codes)
      ensures !sane ==> codes != [] && Upset(ops[|codes| - 1], codes[|codes| - 1], fs.grouped > old(fs.grouped))
    {
      hide Good, UniqueNames, NoneDangling, OneName, CacheOk, Ringed, Base, Separate, Namespace.Nodes, Stepped;
      hide Upset, Refusals;
      RefusalsNone([]);
      codes, sane, trace := [], true, [Nodes()];
      while |codes| < |ops| && sane
        invariant |codes| <= |ops| && fresh(fs.files - old(fs.files)) && Separate()
        invariant |trace| == |codes| + 1 && trace[0] == old(Nodes()) && trace[|codes|] == Nodes()
        invariant forall i | 0 <= i < |codes| ::
                    UniqueNames(trace[i]) && Stepped(trace[i], ops[i], codes[i], sane || i + 1 < |codes|, trace[i + 1])
        invariant sane ==> Ready() && Good(Nodes())
        invariant fs.refused == old(fs.refused) + Refusals(codes) && fs.grouped >= old(fs.grouped)
        invariant !sane ==> codes != [] && Upset(ops[|codes| - 1], codes[|codes| - 1], fs.grouped > old(fs.grouped))
        decreases |ops| - |codes|
      {
        var code;
        ghost var grouped := fs.grouped;
        code, sane := Step(ops[|codes|]);
        RefusalsNext(codes, code);
        UpsetMore(ops[|codes|], code, fs.grouped > grouped, fs.grouped > old(fs.grouped));
        codes, trace := codes + [code], trace + [Nodes()];
      }
    }
  }

  lemma ResolveRoot(nodes: Nodes, path: Path)
    requires Shape(nodes) && path == []
    ensures Resolve(nodes, path) == Found(ROOT)
  {
  }

  /** The walk of the first i + 1 components, given where the first i lead. */
  lemma StepPlace(nodes: Nodes, path: Path, i: nat)
    requires Shape(nodes) && i < |path| && Resolve(nodes, path[..i]).Found?
    ensures var d := Resolve(nodes, path[..i]).value;
            && d in nodes
            && Resolve(nodes, path[..i + 1]) == Child(nodes, d, path[i])
            && (!nodes[d].isDir ==> Child(nodes, d, path[i]) == NotDir)
            && (i == |path| - 1 ==> path[..i + 1] == path && path[..i] == Above(path))
            && (i == |path| - 1 ==> (ParentOk(nodes, path) <==> nodes[d].isDir))
  {
    hide Entries, Unique;
    ResolveThere(nodes, path[..i]);
    ResolveNext(nodes, path, i);
    if i == |path| - 1 {
      assert path[..i + 1] == path;
    }
  }

  /** A walk that fails before the last component fails for the whole path, and its parent does not exist. */
  lemma StuckParent(nodes: Nodes, path: Path, i: nat)
    requires Shape(nodes) && i < |path| && !Resolve(nodes, path[..i]).Found?
    ensures Resolve(nodes, path) == Resolve(nodes, path[..i]) && ParentOk(nodes, path)
  {
    hide UniqueNames, NoneDangling, OneName, Child, Resolve;
    ResolveStuck(nodes, path, i);
    assert Above(path)[..i] == path[..i];
    ResolveStuck(nodes, Above(path), i);
  }

  lemma ResolveNext(nodes: Nodes, path: Path, i: nat)
    requires Shape(nodes) && i < |path| && Resolve(nodes, path[..i]).Found?
    ensures var d := Resolve(nodes, path[..i]).value;
            && Resolve(nodes, path[..i + 1]) == Child(nodes, d, path[i])
            && (d in nodes && !nodes[d].isDir ==> Child(nodes, d, path[i]) == NotDir)
  {
    assert path[..i + 1][..i] == path[..i];
  }

  lemma CacheEmpty(nodes: Nodes)
    requires UniqueNames(nodes)
    ensures CacheOk(nodes, map[])
  {
  }

  lemma CacheRooted(nodes: Nodes, cache: map<Path, Word>)
    requires Shape(nodes) && CacheOk(nodes, cache)
    ensures Rooted(cache)
  {
  }

  lemma CacheHit(nodes: Nodes, cache: map<Path, Word>, p: Path)
    requires Shape(nodes) && CacheOk(nodes, cache) && p in cache
    ensures Resolve(nodes, p) == Found(cache[p]) && cache[p] in nodes
  {
    ResolveThere(nodes, p);
  }

  /** A component found in the cache: only its ring moves. */
  lemma HitStep(nodes: Nodes, c: PathCache, up: Path, name: Name)
    requires Shape(nodes) && CacheOk(nodes, c.inodes) && Ringed(c) && up + [name] in c.inodes
    ensures var d := Hit(c, up, name);
            && CacheOk(nodes, d.inodes) && Ringed(d) && Fetched(c, d, up, name)
            && up + [name] in d.inodes && d.inodes[up + [name]] == c.inodes[up + [name]]
    ensures Resolve(nodes, up + [name]) == Found(c.inodes[up + [name]]) && c.inodes[up + [name]] in nodes
  {
    hide CacheOk, Ringed;
    CacheHit(nodes, c.inodes, up + [name]);
    HitRinged(c, up, name);
  }

  /** A component that joins the cache: only its ring changes, and the cache stays right when the name resolves. */
  lemma MissStep(nodes: Nodes, c: PathCache, up: Path, name: Name, x: Word)
    requires Shape(nodes) && CacheOk(nodes, c.inodes) && Ringed(c) && up + [name] !in c.inodes
             && (up != [] ==> up in c.inodes)
    ensures var d := Missed(c, up, name, x);
            && Ringed(d) && Fetched(c, d, up, name)
            && up + [name] in d.inodes && d.inodes[up + [name]] == x
            && (Resolve(nodes, up + [name]) == Found(x) ==> CacheOk(nodes, d.inodes))
  {
    hide UniqueNames, NoneDangling, OneName, CacheOk, Ringed, Resolve, Rooted, Fetched;
    var here := up + [name];
    assert here[..|here| - 1] == up;
    CacheRooted(nodes, c.inodes);
    MissedRinged(c, up, name, x);
    if Resolve(nodes, here) == Found(x) {
      CacheMore(nodes, c.inodes, here, x);
    }
  }

  lemma RootedMore(cache: map<Path, Word>, p: Path, x: Word)
    requires Rooted(cache) && p != [] && (|p| > 1 ==> p[..|p| - 1] in cache)
    ensures Rooted(cache[p := x])
  {
  }

  /** The cache stays right when a path that resolves joins below a cached one. */
  lemma CacheMore(nodes: Nodes, cache: map<Path, Word>, p: Path, x: Word)
    requires Shape(nodes) && CacheOk(nodes, cache)
    requires p != [] && Resolve(nodes, p) == Found(x) && (|p| > 1 ==> p[..|p| - 1] in cache)
    ensures CacheOk(nodes, cache[p := x])
  {
    hide UniqueNames, Resolve, Rooted;
    RootedMore(cache, p, x);
  }
}
