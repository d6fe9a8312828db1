/** Directories stored in the blocks of an inode, as `src/filesystem.cpp` scans and changes them. */
module Directories {
  import opened Bytes
  import opened BlockTree
  import opened Volume
  import opened Walk
  import opened DentryBlocks

  /** All records of a directory, block after block. */
  ghost function Recs(contents: seq<Block>): seq<Rec> {
    if contents == [] then [] else Recs(contents[..|contents| - 1]) + Parse(contents[|contents| - 1], 0)
  }

  /** The block is a list of records followed by zeros. */
  ghost predicate Tidy(b: Block) {
    Holds(b, Parse(b, 0))
  }

  ghost predicate AllTidy(contents: seq<Block>) {
    forall k | 0 <= k < |contents| :: Tidy(contents[k])
  }

  /** The inode is a directory whose names are unique. */
  ghost predicate IsDirectory(fs: FileSystem, dir: Inode)
    reads fs, dir, fs.files
  {
    fs.Valid() && dir in fs.files && AllTidy(fs.Contents(dir)) && Unique(Recs(fs.Contents(dir)))
  }

  lemma {:induction false} RecsSplit(a: seq<Block>, c: seq<Block>)
    ensures Recs(a + c) == Recs(a) + Recs(c)
    decreases |c|
  {
    hide Parse;
    if c == [] {
      assert a + c == a;
    } else {
      RecsSplit(a, c[..|c| - 1]);
      assert (a + c)[..|a + c| - 1] == a + c[..|c| - 1];
    }
  }

  lemma RecsNext(contents: seq<Block>, k: nat)
    requires k < |contents|
    ensures Recs(contents[..k + 1]) == Recs(contents[..k]) + Parse(contents[k], 0)
  {
    assert contents[..k + 1][..k] == contents[..k];
  }

  /** The records of block k, and those before and behind it. */
  lemma RecsAt(contents: seq<Block>, k: nat)
    requires k < |contents|
    ensures Recs(contents) == Recs(contents[..k]) + Parse(contents[k], 0) + Recs(contents[k + 1..])
    ensures Recs(contents[..k + 1]) == Recs(contents[..k]) + Parse(contents[k], 0)
  {
    hide Parse, Recs;
    RecsNext(contents, k);
    RecsSplit(contents[..k + 1], contents[k + 1..]);
    Rejoined(contents, k + 1);
  }

  // ---- reading ----

  predicate BlockMatches(b: Block, name: Name) {
    var recs := Parse(b, 0);
    exists i | 0 <= i < |recs| :: Matches(recs[i], name)
  }

  lemma MatchesNamed(recs: seq<Rec>, name: Name)
    requires AllWellFormed(recs)
    ensures forall i | 0 <= i < |recs| :: Matches(recs[i], name) <==> IsLive(recs[i]) && recs[i].text == name
  {
  }

  /** The visitor of the name check: goes through all records of one block, a later match overriding an earlier one. */
  method ScanBlock(b: Block, name: Name, found0: bool, inode0: Word) returns (found: bool, inode: Word)
    requires Tidy(b)
    ensures found <==> found0 || Named(Parse(b, 0), name)
    ensures found ==> (found0 && inode == inode0) || Maps(Parse(b, 0), name, inode)
  {
    hide Parse, Encode;
    var dentries, starts, size := Open(b);
    MatchesNamed(dentries, name);
    found, inode := found0, inode0;
    for i := 0 to |dentries|
      invariant found <==> found0 || exists j | 0 <= j < i :: Matches(dentries[j], name)
      invariant found ==> (found0 && inode == inode0) || Maps(dentries, name, inode)
    {
      if Matches(dentries[i], name) {
        found, inode := true, dentries[i].inode;
      }
    }
  }

  /** `inode_lookup(parent, name, …)`: whether the name exists, its inode, and the last block of the directory. */
  method Scan(fs: FileSystem, dir: Inode, name: Name) returns (found: bool, inode: Word, hasLast: bool, last: Word)
    requires IsDirectory(fs, dir)
    ensures found <==> Named(Recs(fs.Contents(dir)), name)
    ensures found ==> Maps(Recs(fs.Contents(dir)), name, inode)
    ensures hasLast <==> dir.Count() > 0
    ensures hasLast ==> last == fs.DataList(dir)[dir.Count() - 1]
  {
    hide Loc, LiveSet, UntilStop, Leaves, ListOf, ContentOf, Parse, Holds, Unique, Recs;
    var list := VisitInodeBlocks(fs, dir, _ => false);
    found, inode, hasLast, last := false, 0, false, 0;
    ghost var contents := fs.Contents(dir);
    ListContents(fs, dir);
    assert Recs(contents[..0]) == [] by { RecsNone(contents[..0]); }
    for k := 0 to |list|
      invariant found <==> Named(Recs(contents[..k]), name)
      invariant found ==> Maps(Recs(contents[..k]), name, inode)
      invariant hasLast <==> k > 0
      invariant hasLast ==> last == list[k - 1]
    {
      RecsAt(contents, k);
      NamedSplit(Recs(contents[..k]), Parse(contents[k], 0), name);
      found, inode := ScanBlock(fs.blocks[list[k]], name, found, inode);
      MapsSplit(Recs(contents[..k]), Parse(contents[k], 0), name, inode);
      hasLast, last := true, list[k];
    }
    assert contents[..|list|] == contents;
  }

  lemma RecsNone(contents: seq<Block>)
    requires contents == []
    ensures Recs(contents) == []
  {
  }

  lemma NamedSplit(a: seq<Rec>, c: seq<Rec>, name: seq<Byte>)
    ensures Named(a + c, name) <==> Named(a, name) || Named(c, name)
  {
    if Named(a, name) {
      var i :| 0 <= i < |a| && IsLive(a[i]) && a[i].text == name;
      assert (a + c)[i] == a[i];
    }
    if Named(c, name) {
      var i :| 0 <= i < |c| && IsLive(c[i]) && c[i].text == name;
      assert (a + c)[|a| + i] == c[i];
    }
  }

  lemma MapsSplit(a: seq<Rec>, c: seq<Rec>, name: seq<Byte>, inode: Word)
    ensures Maps(a, name, inode) || Maps(c, name, inode) ==> Maps(a + c, name, inode)
  {
    if Maps(a, name, inode) {
      var i :| 0 <= i < |a| && IsLive(a[i]) && a[i].text == name && a[i].inode == inode;
      assert (a + c)[i] == a[i];
    }
    if Maps(c, name, inode) {
      var i :| 0 <= i < |c| && IsLive(c[i]) && c[i].text == name && c[i].inode == inode;
      assert (a + c)[|a| + i] == c[i];
    }
  }

  /** Block k of the list holds content k, and the list names every block once. */
  lemma ListContents(fs: FileSystem, f: Inode)
    requires fs.Valid() && f in fs.files
    ensures |fs.DataList(f)| == |fs.Contents(f)| == f.Count()
    ensures forall k | 0 <= k < f.Count() ::
              fs.DataList(f)[k] in fs.blocks && fs.blocks[fs.DataList(f)[k]] == fs.Contents(f)[k]
    ensures forall j, k | 0 <= j < f.Count() && 0 <= k < f.Count() && j != k :: fs.DataList(f)[j] != fs.DataList(f)[k]
    ensures forall k | 0 <= k < f.Count() :: fs.DataList(f)[k] == fs.SnapOf(f).At(Data(k))
  {
    hide Loc, LiveSet;
    var g, n := fs.SnapOf(f), f.Count();
    CountBounded(f, g, n, VOLUME_BLOCKS);
    forall k | 0 <= k < n ensures g.At(Data(k)) in g.st && g.At(Data(k)) in g.owner
        && g.owner[g.At(Data(k))] == Owned(f, Data(k)) {
      DataThere(f, g, n, k);
    }
  }

  /** The visitor of the path walk on one block, whatever its bytes: the first match counts. */
  method FindIn(b: Block, name: Name) returns (found: bool, i: nat, dentries: seq<Rec>, starts: seq<nat>)
    ensures dentries == Parse(b, 0) && starts == Starts(b, 0) && found == BlockMatches(b, name)
    ensures found ==> i < |dentries| && Matches(dentries[i], name)
    ensures found ==> FirstMatch(dentries, name) == Matched(dentries[i].inode)
    ensures !found ==> FirstMatch(dentries, name) == NoMatch
  {
    hide Parse, Matches;
    var size;
    dentries, starts, size := Open(b);
    i := 0;
    while i < |dentries|
      invariant i <= |dentries| && forall j | 0 <= j < i :: !Matches(dentries[j], name)
    {
      if Matches(dentries[i], name) {
        FirstMatchAt(dentries, name, i);
        found := true;
        return;
      }
      i := i + 1;
    }
    FirstMatchNone(dentries, name);
    found := false;
  }

  datatype Match = NoMatch | Matched(inode: Word)

  /** The inode of the first record that matches. */
  function FirstMatch(recs: seq<Rec>, name: Name): Match {
    if recs == [] then NoMatch else if Matches(recs[0], name) then Matched(recs[0].inode)
        else FirstMatch(recs[1..], name)
  }

  lemma {:induction false} FirstMatchAt(recs: seq<Rec>, name: Name, i: nat)
    requires i < |recs| && Matches(recs[i], name) && forall j | 0 <= j < i :: !Matches(recs[j], name)
    ensures FirstMatch(recs, name) == Matched(recs[i].inode)
  {
    if i > 0 {
      FirstMatchAt(recs[1..], name, i - 1);
    }
  }

  lemma {:induction false} FirstMatchNone(recs: seq<Rec>, name: Name)
    requires forall j | 0 <= j < |recs| :: !Matches(recs[j], name)
    ensures FirstMatch(recs, name) == NoMatch
  {
    if recs != [] {
      FirstMatchNone(recs[1..], name);
    }
  }

  /** What a walk over blocks ends up with: the first match in the last block visited that has one. */
  function LastMatch(visited: seq<Word>, st: Store, name: Name): Match {
    if visited == [] then NoMatch
    else
      var b := visited[|visited| - 1];
      var here := if b in st then FirstMatch(Parse(st[b], 0), name) else NoMatch;
      if here.Matched? then here else LastMatch(visited[..|visited| - 1], st, name)
  }

  /** The visitor stops at a block with a match. */
  function Stopper(st: Store, name: Name): Visitor {
    (b: Word) => b in st && BlockMatches(st[b], name)
  }

  /** What a scan of the blocks of any inode, file or directory, finds for a name. */
  ghost function Scanned(fs: FileSystem, f: Inode, name: Name): Match
    reads fs`blocks, fs`owner, f
  {
    LastMatch(Visited(fs.DataList(f), Stopper(fs.blocks, name)), fs.blocks, name)
  }

  /** A name of one block is a name of the directory. */
  lemma NamedIn(contents: seq<Block>, k: nat, name: seq<Byte>, inode: Word)
    requires k < |contents|
    ensures Named(Parse(contents[k], 0), name) ==> Named(Recs(contents), name)
    ensures Maps(Parse(contents[k], 0), name, inode) ==> Maps(Recs(contents), name, inode)
  {
    hide Parse, Recs, Named, Maps;
    var a, c, d := Recs(contents[..k]), Parse(contents[k], 0), Recs(contents[k + 1..]);
    RecsAt(contents, k);
    NamedSplit(a, c, name);
    NamedSplit(a + c, d, name);
    MapsSplit(a, c, name, inode);
    MapsSplit(a + c, d, name, inode);
  }

  /** A name of the directory is a name of one of its blocks. */
  lemma {:induction false} NamedSomewhere(contents: seq<Block>, name: seq<Byte>)
    requires Named(Recs(contents), name)
    ensures exists k | 0 <= k < |contents| :: Named(Parse(contents[k], 0), name)
  {
    hide Parse, Named;
    if contents == [] {
      NamedNone(name);
    } else {
      var m := |contents| - 1;
      NamedSplit(Recs(contents[..m]), Parse(contents[m], 0), name);
      if !Named(Parse(contents[m], 0), name) {
        NamedSomewhere(contents[..m], name);
      }
    }
  }

  lemma NamedNone(name: seq<Byte>)
    ensures !Named([], name)
  {
  }

  /** A visitor that stops at a match sees a match exactly when the directory has the name. */
  lemma StopsNamed(fs: FileSystem, dir: Inode, name: Name, stop: Visitor)
    requires IsDirectory(fs, dir)
    requires forall b | b in fs.blocks :: stop(b) == BlockMatches(fs.blocks[b], name)
    ensures StopsAmong(fs.DataList(dir), stop) <==> Named(Recs(fs.Contents(dir)), name)
  {
    hide Loc, LiveSet, ListOf, ContentOf, Parse, Encode, Unique, Recs;
    ListContents(fs, dir);
    var list, contents := fs.DataList(dir), fs.Contents(dir);
    forall k | 0 <= k < |list| ensures stop(list[k]) <==> Named(Parse(contents[k], 0), name) {
      MatchesNamed(Parse(contents[k], 0), name);
    }
    if k :| 0 <= k < |list| && stop(list[k]) {
      NamedIn(contents, k, name, 0);
    }
    if Named(Recs(contents), name) {
      NamedSomewhere(contents, name);
    }
  }

  /** The scan of one inode in `inode_lookup(path, …)`; the source makes it on files as well as on directories. */
  method Find(fs: FileSystem, f: Inode, name: Name) returns (found: bool, inode: Word)
    requires fs.Valid() && f in fs.files
    ensures Scanned(fs, f, name) == if found then Matched(inode) else NoMatch
    ensures IsDirectory(fs, f) ==> (found <==> Named(Recs(fs.Contents(f)), name))
    ensures IsDirectory(fs, f) && found ==> Maps(Recs(fs.Contents(f)), name, inode)
  {
    hide Loc, LiveSet, UntilStop, Leaves, ListOf, ContentOf, Parse, Encode, Unique, Recs, Visited, FirstMatch;
    hide BlockMatches, Matches;
    var stop := Stopper(fs.blocks, name);
    var visited := VisitInodeBlocks(fs, f, stop);
    ListContents(fs, f);
    VisitedSome(fs.DataList(f), stop);
    found, inode := false, 0;
    assert visited[..0] == [];
    for j := 0 to |visited|
      invariant LastMatch(visited[..j], fs.blocks, name) == if found then Matched(inode) else NoMatch
    {
      assert visited[j] in fs.DataList(f);
      assert visited[..j + 1][..j] == visited[..j];
      var here, i, dentries, starts := FindIn(fs.blocks[visited[j]], name);
      if here {
        found, inode := true, dentries[i].inode;
      }
    }
    assert visited[..|visited|] == visited;
    if IsDirectory(fs, f) {
      ScannedDirectory(fs, f, name);
    }
  }

  /** Something is found exactly when some visited block has a match, and it comes from one of them. */
  lemma {:induction false} LastMatchFrom(visited: seq<Word>, st: Store, name: Name)
    ensures LastMatch(visited, st, name).Matched? <==> StopsAmong(visited, Stopper(st, name))
    ensures LastMatch(visited, st, name).Matched? ==>
              exists j | 0 <= j < |visited| ::
                visited[j] in st && FirstMatch(Parse(st[visited[j]], 0), name) == LastMatch(visited, st, name)
  {
    hide Parse, Matches, FirstMatch;
    if visited != [] {
      var m := |visited| - 1;
      LastMatchFrom(visited[..m], st, name);
      StopsSplit(visited[..m], [visited[m]], Stopper(st, name));
      assert visited[..m] + [visited[m]] == visited;
      assert [visited[m]][0] == visited[m];
      if visited[m] in st {
        FirstMatchSome(Parse(st[visited[m]], 0), name);
      }
    }
  }

  lemma {:induction false} FirstMatchSome(recs: seq<Rec>, name: Name)
    ensures FirstMatch(recs, name).Matched? <==> exists i | 0 <= i < |recs| :: Matches(recs[i], name)
    ensures FirstMatch(recs, name).Matched? ==>
              exists i | 0 <= i < |recs| :: Matches(recs[i], name) && FirstMatch(recs, name) == Matched(recs[i].inode)
  {
    hide Matches;
    if recs != [] {
      FirstMatchSome(recs[1..], name);
      assert forall i | 0 <= i < |recs| - 1 :: recs[1..][i] == recs[i + 1];
    }
  }

  /** In a directory the scan finds a name exactly when a live record has it, with its inode. */
  lemma ScannedDirectory(fs: FileSystem, dir: Inode, name: Name)
    requires IsDirectory(fs, dir)
    ensures Scanned(fs, dir, name).Matched? <==> Named(Recs(fs.Contents(dir)), name)
    ensures Scanned(fs, dir, name).Matched? ==> Maps(Recs(fs.Contents(dir)), name, Scanned(fs, dir, name).inode)
  {
    hide Loc, LiveSet, ListOf, ContentOf, Parse, Encode, Unique, Recs, Visited, LastMatch, FirstMatch, Matches;
    var stop := Stopper(fs.blocks, name);
    var list := fs.DataList(dir);
    ListContents(fs, dir);
    StopsNamed(fs, dir, name, stop);
    VisitedSome(list, stop);
    LastMatchFrom(Visited(list, stop), fs.blocks, name);
    if Scanned(fs, dir, name).Matched? {
      var visited := Visited(list, stop);
      var j :| 0 <= j < |visited| && visited[j] in fs.blocks
               && FirstMatch(Parse(fs.blocks[visited[j]], 0), name) == Scanned(fs, dir, name);
      assert visited[j] in list;
      var k :| 0 <= k < |list| && list[k] == visited[j];
      MatchMaps(fs.Contents(dir)[k], name, Scanned(fs, dir, name).inode);
      NamedIn(fs.Contents(dir), k, name, Scanned(fs, dir, name).inode);
    }
  }

  /** A file without blocks holds nothing that could be found. */
  lemma EmptyScan(fs: FileSystem, f: Inode, name: Name)
    requires f.Count() == 0
    ensures Scanned(fs, f, name) == NoMatch
  {
    hide Visited;
    VisitedSome(fs.DataList(f), Stopper(fs.blocks, name));
    var visited := Visited(fs.DataList(f), Stopper(fs.blocks, name));
    assert forall j | 0 <= j < |visited| :: visited[j] in fs.DataList(f);
  }

  /** A file whose data looks like a directory record is searched with success. */
  lemma DataScan(fs: FileSystem, f: Inode, r: Rec)
    requires fs.Valid() && f in fs.files && WellFormed(r) && IsLive(r)
    requires fs.Contents(f) == [PutBytes(ZeroBlock(), 0, RecBytes(r))]
    ensures Scanned(fs, f, r.text) == Matched(r.inode)
  {
    hide Parse, Scanned, Encode, RecBytes, PutBytes, ListOf, ContentOf;
    var b := fs.Contents(f)[0];
    EncodeNone([]);
    EmptyBlock(ZeroBlock());
    AppendRec(ZeroBlock(), [], r);
    assert [] + [r] == [r];
    ParseHeld(b, [r]);
    RecsNext(fs.Contents(f), 0);
    RecsNone(fs.Contents(f)[..0]);
    assert fs.Contents(f)[..1] == fs.Contents(f);
    assert Recs(fs.Contents(f)) == [r];
    ScannedDirectory(fs, f, r.text);
    assert [r][0] == r;
  }

  lemma MatchMaps(b: Block, name: Name, inode: Word)
    requires Tidy(b) && FirstMatch(Parse(b, 0), name) == Matched(inode)
    ensures Maps(Parse(b, 0), name, inode)
  {
    hide Parse, Encode, FirstMatch;
    MatchesNamed(Parse(b, 0), name);
    FirstMatchSome(Parse(b, 0), name);
  }

  // ---- unlinking ----

  /** Erasing record i of block k erases one record of the directory. */
  lemma EraseInBlock(contents: seq<Block>, k: nat, b: Block, i: nat)
    requires k < |contents| && i < |Parse(contents[k], 0)| && IsLive(Parse(contents[k], 0)[i])
    requires Parse(b, 0) == Parse(contents[k], 0)[i := Erased(Parse(contents[k], 0)[i])]
    ensures var r := Parse(contents[k], 0)[i]; Erases(Recs(contents), Recs(contents[k := b]), r.text, r.inode)
  {
    hide Parse, Recs;
    var contents' := contents[k := b];
    RecsAt(contents, k);
    RecsAt(contents', k);
    assert contents'[..k] == contents[..k] && contents'[k + 1..] == contents[k + 1..];
    var at := |Recs(contents[..k])| + i;
    assert Recs(contents)[at] == Parse(contents[k], 0)[i];
    assert Recs(contents') == Recs(contents)[at := Erased(Recs(contents)[at])];
  }

  /** Every other file is as before. */
  twostate predicate OthersKept(fs: FileSystem, dir: Inode)
    reads fs, fs.files
  {
    && fs.files == old(fs.files)
    && forall f | f in fs.files && f != dir ::
         fs.DataList(f) == old(fs.DataList(f)) && fs.Contents(f) == old(fs.Contents(f))
  }

  /** The visitor of `inode_unlink` on block k: sets the name length of the first match to zero. */
  method EraseIn(fs: FileSystem, dir: Inode, ghost k: nat, index: Word, name: Name) returns (found: bool, inode: Word)
    requires IsDirectory(fs, dir) && k < dir.Count() && index == fs.DataList(dir)[k]
    modifies fs`blocks, fs`dirty
    ensures IsDirectory(fs, dir) && fs.DataList(dir) == old(fs.DataList(dir)) && OthersKept(fs, dir)
    ensures index in old(fs.blocks) && found == BlockMatches(old(fs.blocks)[index], name)
    ensures found ==> Named(old(Recs(fs.Contents(dir))), name)
    ensures !found ==> fs.blocks == old(fs.blocks) && fs.dirty == old(fs.dirty)
    ensures found ==> Erases(old(Recs(fs.Contents(dir))), Recs(fs.Contents(dir)), name, inode)
    ensures Marks(old(fs.Cache()), fs.Cache(), {})
  {
    hide Loc, LiveSet, ListOf, ContentOf, Parse, Encode, Unique, Recs, Starts, FirstMatch, Matches, Holds;
    ListContents(fs, dir);
    var i, dentries, starts;
    found, i, dentries, starts := FindIn(fs.blocks[index], name);
    inode := 0;
    if found {
      inode := dentries[i].inode;
      EraseAt(fs.Contents(dir), k, i, name);
      fs.PutData(dir, k, index, starts[i] + 6, [0]);
    }
  }

  /** Zeroing the name length of a match in block k leaves a directory with that one record erased. */
  lemma EraseAt(contents: seq<Block>, k: nat, i: nat, name: Name)
    requires AllTidy(contents) && Unique(Recs(contents)) && k < |contents|
    requires i < |Parse(contents[k], 0)| && Matches(Parse(contents[k], 0)[i], name)
    ensures var b, inode := PutBytes(contents[k], Starts(contents[k], 0)[i] + 6, [0]), Parse(contents[k], 0)[i].inode;
            && AllTidy(contents[k := b]) && Unique(Recs(contents[k := b])) && Named(Recs(contents), name)
            && Erases(Recs(contents), Recs(contents[k := b]), name, inode)
  {
    hide Parse, Encode, Unique, Recs, Starts;
    var recs := Parse(contents[k], 0);
    MatchesNamed(recs, name);
    ParseHeld(contents[k], recs);
    EraseRec(contents[k], recs, i);
    var b := PutBytes(contents[k], Starts(contents[k], 0)[i] + 6, [0]);
    ParseHeld(b, recs[i := Erased(recs[i])]);
    EraseInBlock(contents, k, b, i);
    ErasesEntries(Recs(contents), Recs(contents[k := b]), name, recs[i].inode);
    NamedIn(contents, k, name, recs[i].inode);
  }

  /** The search and erasure of `inode_unlink`: exactly the record of that name goes, and its block is marked dirty. */
  method EraseRecord(fs: FileSystem, dir: Inode, name: Name) returns (found: bool, inode: Word)
    requires IsDirectory(fs, dir)
    modifies fs`blocks, fs`dirty
    ensures IsDirectory(fs, dir) && fs.DataList(dir) == old(fs.DataList(dir)) && OthersKept(fs, dir)
    ensures found <==> old(Named(Recs(fs.Contents(dir)), name))
    ensures found ==> Erases(old(Recs(fs.Contents(dir))), Recs(fs.Contents(dir)), name, inode)
    ensures !found ==> fs.blocks == old(fs.blocks) && fs.dirty == old(fs.dirty)
    ensures Marks(old(fs.Cache()), fs.Cache(), {})
  {
    hide Loc, LiveSet, UntilStop, Leaves, ListOf, ContentOf, Parse, Encode, Unique, Recs, Visited, Erases, Marks;
    hide Named, BlockMatches, AllTidy, FileSystem.Valid;
    var st := fs.blocks;
    var stop := Stopper(st, name);
    var visited := VisitInodeBlocks(fs, dir, stop);
    ListContents(fs, dir);
    StopsNamed(fs, dir, name, stop);
    VisitedSome(fs.DataList(dir), stop);
    MarksNone(fs.Cache());
    found, inode := false, 0;
    for j := 0 to |visited|
      invariant IsDirectory(fs, dir) && fs.DataList(dir) == old(fs.DataList(dir)) && OthersKept(fs, dir)
      invariant found ==> Erases(old(Recs(fs.Contents(dir))), Recs(fs.Contents(dir)), name, inode)
      invariant found ==> old(Named(Recs(fs.Contents(dir)), name))
      invariant !found ==> fs.blocks == st && fs.dirty == old(fs.dirty) && forall m | 0 <= m < j :: !stop(visited[m])
      invariant Marks(old(fs.Cache()), fs.Cache(), {})
    {
      assert visited[j] in fs.DataList(dir);
      ghost var k :| 0 <= k < dir.Count() && fs.DataList(dir)[k] == visited[j];
      ghost var c := fs.Cache();
      if found {
        ErasesEntries(old(Recs(fs.Contents(dir))), Recs(fs.Contents(dir)), name, inode);
      }
      var here, i := EraseIn(fs, dir, k, visited[j], name);
      MarksThen(old(fs.Cache()), c, fs.Cache(), {}, {}, {});
      if here {
        found, inode := true, i;
      }
    }
  }

  lemma MarksNone(c: Cached)
    ensures Marks(c, c, {})
  {
  }

  // ---- creating ----

  /** A record appended to the last block is appended to the directory. */
  lemma AppendInBlock(contents: seq<Block>, b: Block, r: Rec)
    requires contents != [] && Parse(b, 0) == Parse(contents[|contents| - 1], 0) + [r]
    ensures Recs(contents[|contents| - 1 := b]) == Recs(contents) + [r]
  {
    hide Parse, Recs;
    var k, contents' := |contents| - 1, contents[|contents| - 1 := b];
    RecsNext(contents, k);
    RecsNext(contents', k);
    assert contents[..k + 1] == contents && contents'[..k + 1] == contents' && contents'[..k] == contents[..k];
  }

  /** A new zero block holds no records. */
  lemma EmptyLast(contents: seq<Block>)
    ensures Recs(contents + [ZeroBlock()]) == Recs(contents)
    ensures AllTidy(contents) ==> AllTidy(contents + [ZeroBlock()])
    ensures Parse(ZeroBlock(), 0) == [] && Holds(ZeroBlock(), [])
  {
    hide Parse;
    EmptyBlock(ZeroBlock());
    ParseHeld(ZeroBlock(), []);
    assert (contents + [ZeroBlock()])[..|contents|] == contents;
  }

  /** `alloc_dentry` in the last block, which has room, then `modify`. */
  method WriteRecord(fs: FileSystem, dir: Inode, index: Word, size: nat, r: Rec)
    requires IsDirectory(fs, dir) && dir.Count() > 0 && index == fs.DataList(dir)[dir.Count() - 1]
    requires WellFormed(r) && IsLive(r) && !Named(Recs(fs.Contents(dir)), r.text)
    requires index in fs.blocks && AllWellFormed(Parse(fs.blocks[index], 0))
             && size == |Encode(Parse(fs.blocks[index], 0))|
    requires size + HEADER + |r.text| <= BLOCK_SIZE
    modifies fs`blocks, fs`dirty
    ensures IsDirectory(fs, dir) && fs.DataList(dir) == old(fs.DataList(dir)) && OthersKept(fs, dir)
    ensures Recs(fs.Contents(dir)) == old(Recs(fs.Contents(dir))) + [r]
    ensures Marks(old(fs.Cache()), fs.Cache(), {}) && fs.dirty == old(fs.dirty) + {index}
  {
    hide Loc, LiveSet, ListOf, ContentOf, Parse, Encode, Unique, Recs, Named;
    ListContents(fs, dir);
    ghost var k, contents, recs := dir.Count() - 1, fs.Contents(dir), Parse(fs.blocks[index], 0);
    ghost var b := PutBytes(fs.blocks[index], size, RecBytes(r));
    AppendRec(fs.blocks[index], recs, r);
    ParseHeld(b, recs + [r]);
    AppendInBlock(contents, b, r);
    AddEntry(Recs(contents), r);
    fs.PutData(dir, k, index, size, RecBytes(r));
  }

  /** `alloc_block` for the directory: the new block holds no records yet. */
  method ExtendDirectory(fs: FileSystem, dir: Inode) returns (ok: bool, index: Word)
    requires IsDirectory(fs, dir)
    modifies fs`blocks, fs`dirty, fs`owner, fs`refused, dir`block, dir`iBlocks
    ensures IsDirectory(fs, dir) && OthersKept(fs, dir) && fs.refused == old(fs.refused) + if ok then 0 else 1
    ensures dir.Count() == old(dir.Count()) + if ok then 1 else 0
    ensures Recs(fs.Contents(dir)) == old(Recs(fs.Contents(dir)))
    ensures !ok ==> fs.Contents(dir) == old(fs.Contents(dir)) && fs.DataList(dir) == old(fs.DataList(dir))
    ensures ok ==> dir.Count() > 0 && index == fs.DataList(dir)[dir.Count() - 1]
    ensures ok ==> index in fs.blocks && fs.blocks[index] == ZeroBlock()
    ensures ok ==> Holds(ZeroBlock(), []) && Parse(ZeroBlock(), 0) == []
    ensures ok ==> Marks(old(fs.Cache()), fs.Cache(), {index}
                         + if TripleEntry(old(dir.Count())) then {dir.block[TIND_SLOT]} else {})
  {
    hide Loc, LiveSet, Parse, Encode, Unique, Recs, Marks, TripleEntry;
    ghost var contents, list := fs.Contents(dir), fs.DataList(dir);
    ok, index := fs.AppendBlock(dir);
    EmptyLast(contents);
    if ok {
      ListContents(fs, dir);
      assert |fs.DataList(dir)| == dir.Count();
      assert fs.Contents(dir)[|contents|] == ZeroBlock();
    }
  }

  /**
   * `dentry_create`: the new record goes behind the others in the last block, or into a new block when
   * there is none or it is full.  On success the directory maps the name to the inode, other entries stay.
   */
  method AddRecord(fs: FileSystem, dir: Inode, hasLast: bool, last: Word, name: Name, inode: Word, fileType: Byte)
    returns (ok: bool)
    requires IsDirectory(fs, dir) && !Named(Recs(fs.Contents(dir)), name)
    requires (hasLast <==> dir.Count() > 0) && (hasLast ==> last == fs.DataList(dir)[dir.Count() - 1])
    modifies fs`blocks, fs`dirty, fs`owner, fs`refused, dir`block, dir`iBlocks
    ensures IsDirectory(fs, dir) && OthersKept(fs, dir) && fs.refused == old(fs.refused) + if ok then 0 else 1
    ensures dir.Count() == old(dir.Count()) + if ok && old(IsFull(fs.Contents(dir), |name|)) then 1 else 0
    ensures ok ==> Recs(fs.Contents(dir)) == old(Recs(fs.Contents(dir))) + [NewRec(name, inode, fileType)]
    ensures !ok ==> fs.Contents(dir) == old(fs.Contents(dir))
    ensures ok ==> Marks(old(fs.Cache()), fs.Cache(),
                         if TripleEntry(old(dir.Count())) then {dir.block[TIND_SLOT]} else {})
  {
    hide Loc, LiveSet, ListOf, ContentOf, Parse, Encode, Unique, Recs, Marks, TripleEntry, Named;
    var index, size;
    ok, index, size := MakeRoom(fs, dir, hasLast, last, |name|);
    if ok {
      ghost var c := fs.Cache();
      WriteRecord(fs, dir, index, size, NewRec(name, inode, fileType));
      ghost var e := if TripleEntry(old(dir.Count())) then {dir.block[TIND_SLOT]} else {};
      MarksThen(old(fs.Cache()), c, fs.Cache(), {index} + e, {}, e);
    }
  }

  /** The directory has no block, or its last one has no room behind its records for a name of that length. */
  ghost predicate IsFull(contents: seq<Block>, nameLen: nat)
    requires AllTidy(contents)
  {
    contents == [] || |Encode(Parse(contents[|contents| - 1], 0))| + HEADER + nameLen > BLOCK_SIZE
  }

  /** A block can hold these records. */
  ghost predicate Storable(recs: seq<Rec>) {
    exists b: Block :: Holds(b, recs)
  }

  /** That is so exactly when no block could hold the records of the last one and another of that length. */
  lemma FullExact(contents: seq<Block>, r: Rec)
    requires AllTidy(contents) && contents != [] && WellFormed(r)
    ensures IsFull(contents, |r.text|) <==> !Storable(Parse(contents[|contents| - 1], 0) + [r])
  {
    hide Parse, Encode;
    var recs := Parse(contents[|contents| - 1], 0);
    assert Tidy(contents[|contents| - 1]);
    EncodeLast(recs, r);
    if !IsFull(contents, |r.text|) {
      var bytes := Encode(recs + [r]);
      var b: Block := bytes + seq(BLOCK_SIZE - |bytes|, _ => 0);
      assert Holds(b, recs + [r]);
    }
  }

  /** The block of the directory that has room for a name, and how much of it is used. */
  method MakeRoom(fs: FileSystem, dir: Inode, hasLast: bool, last: Word, nameLen: nat)
    returns (ok: bool, index: Word, size: nat)
    requires IsDirectory(fs, dir) && nameLen < 255
    requires (hasLast <==> dir.Count() > 0) && (hasLast ==> last == fs.DataList(dir)[dir.Count() - 1])
    modifies fs`blocks, fs`dirty, fs`owner, fs`refused, dir`block, dir`iBlocks
    ensures IsDirectory(fs, dir) && OthersKept(fs, dir) && Recs(fs.Contents(dir)) == old(Recs(fs.Contents(dir)))
    ensures fs.refused == old(fs.refused) + if ok then 0 else 1
    ensures dir.Count() == old(dir.Count()) + if ok && old(IsFull(fs.Contents(dir), nameLen)) then 1 else 0
    ensures !ok ==> fs.Contents(dir) == old(fs.Contents(dir))
    ensures ok ==> dir.Count() > 0 && index == fs.DataList(dir)[dir.Count() - 1] && index in fs.blocks
    ensures ok ==> AllWellFormed(Parse(fs.blocks[index], 0)) && size == |Encode(Parse(fs.blocks[index], 0))|
    ensures ok ==> size + HEADER + nameLen <= BLOCK_SIZE
    ensures ok ==> Marks(old(fs.Cache()), fs.Cache(), {index}
                         + if TripleEntry(old(dir.Count())) then {dir.block[TIND_SLOT]} else {})
  {
    hide Loc, LiveSet, ListOf, ContentOf, Parse, Encode, Unique, Recs, Starts, EndOf, Marks, TripleEntry;
    hide FileSystem.Valid, FileSystem.Contents, FileSystem.DataList;
    ListContents(fs, dir);
    EncodeNone([]);
    if !hasLast {
      ok, index := ExtendDirectory(fs, dir);
      size := 0;
      if !ok { return; }
    } else {
      ok, index, size := RoomBehind(fs, dir, last, nameLen);
      return;
    }
    ParseHeld(fs.blocks[index], []);
    var dentries, starts;
    dentries, starts, size := Open(fs.blocks[index]);
  }

  /** The same where there is a last block: it is left for a new one when it is full. */
  method RoomBehind(fs: FileSystem, dir: Inode, last: Word, nameLen: nat) returns (ok: bool, index: Word, size: nat)
    requires IsDirectory(fs, dir) && nameLen < 255 && dir.Count() > 0 && last == fs.DataList(dir)[dir.Count() - 1]
    modifies fs`blocks, fs`dirty, fs`owner, fs`refused, dir`block, dir`iBlocks
    ensures IsDirectory(fs, dir) && OthersKept(fs, dir) && Recs(fs.Contents(dir)) == old(Recs(fs.Contents(dir)))
    ensures fs.refused == old(fs.refused) + if ok then 0 else 1
    ensures dir.Count() == old(dir.Count()) + if ok && old(IsFull(fs.Contents(dir), nameLen)) then 1 else 0
    ensures !ok ==> fs.Contents(dir) == old(fs.Contents(dir))
    ensures ok ==> dir.Count() > 0 && index == fs.DataList(dir)[dir.Count() - 1] && index in fs.blocks
    ensures ok ==> AllWellFormed(Parse(fs.blocks[index], 0)) && size == |Encode(Parse(fs.blocks[index], 0))|
    ensures ok ==> size + HEADER + nameLen <= BLOCK_SIZE
    ensures ok ==> Marks(old(fs.Cache()), fs.Cache(), {index}
                         + if TripleEntry(old(dir.Count())) then {dir.block[TIND_SLOT]} else {})
  {
    hide Loc, LiveSet, ListOf, ContentOf, Parse, Encode, Unique, Recs, Starts, EndOf, Marks, TripleEntry;
    hide FileSystem.Valid, FileSystem.Contents, FileSystem.DataList;
    ok, index := true, last;
    ListContents(fs, dir);
    MarksNone(fs.Cache());
    MarksMore(fs.Cache(), fs.Cache(), {}, {index} + if TripleEntry(dir.Count()) then {dir.block[TIND_SLOT]} else {});
    ParseHeld(fs.blocks[index], Parse(fs.blocks[index], 0));
    var dentries, starts;
    dentries, starts, size := Open(fs.blocks[index]);
    if size + HEADER + nameLen > BLOCK_SIZE {
      EncodeNone([]);
      ok, index := ExtendDirectory(fs, dir);
      if !ok { return; }
      ParseHeld(fs.blocks[index], []);
      dentries, starts, size := Open(fs.blocks[index]);
    }
  }

  // ---- emptiness ----

  predicate BlockHasLive(b: Block) {
    var recs := Parse(b, 0);
    exists i | 0 <= i < |recs| :: IsLive(recs[i])
  }

  ghost predicate AnyLive(recs: seq<Rec>) {
    exists i | 0 <= i < |recs| :: IsLive(recs[i])
  }

  lemma LiveEither(a: seq<Rec>, c: seq<Rec>)
    ensures AnyLive(a + c) <==> AnyLive(a) || AnyLive(c)
  {
    if i :| 0 <= i < |a| && IsLive(a[i]) {
      assert (a + c)[i] == a[i];
    }
    if i :| 0 <= i < |c| && IsLive(c[i]) {
      assert (a + c)[|a| + i] == c[i];
    }
  }

  lemma {:induction false} LiveSomewhere(contents: seq<Block>)
    ensures AnyLive(Recs(contents)) <==> exists k | 0 <= k < |contents| :: BlockHasLive(contents[k])
  {
    hide Parse;
    if contents != [] {
      var m := |contents| - 1;
      var front := contents[..m];
      LiveSomewhere(front);
      LiveEither(Recs(front), Parse(contents[m], 0));
      assert BlockHasLive(contents[m]) <==> AnyLive(Parse(contents[m], 0));
      hide AnyLive, BlockHasLive, Recs;
      assert forall k | 0 <= k < m :: front[k] == contents[k];
    }
  }

  /**
   * The emptiness check of `fuse_rmdir`: a stop request inside an indirect range does not end the walk,
   * but no live record is missed.
   */
  method IsEmpty(fs: FileSystem, dir: Inode) returns (empty: bool)
    requires IsDirectory(fs, dir)
    ensures empty <==> !AnyLive(Recs(fs.Contents(dir)))
  {
    hide Loc, LiveSet, UntilStop, Leaves, ListOf, ContentOf, Parse, Encode, Unique, Recs, Visited;
    var st := fs.blocks;
    var stop := (b: Word) => b in st && BlockHasLive(st[b]);
    var visited := VisitInodeBlocks(fs, dir, stop);
    ListContents(fs, dir);
    LiveSomewhere(fs.Contents(dir));
    VisitedSome(fs.DataList(dir), stop);
    assert StopsAmong(fs.DataList(dir), stop) <==> AnyLive(Recs(fs.Contents(dir)));
    empty := true;
    for j := 0 to |visited|
      invariant empty <==> forall m | 0 <= m < j :: !stop(visited[m])
    {
      assert visited[j] in fs.DataList(dir);
      var dentries, starts, size := Open(fs.blocks[visited[j]]);
      if exists i | 0 <= i < |dentries| :: IsLive(dentries[i]) {
        empty := false;
      }
    }
  }

  // ---- deletion ----

  /** The inodes that the live records name, in order. */
  ghost function LiveInodes(recs: seq<Rec>): seq<Word> {
    if recs == [] then []
    else
      var r := recs[|recs| - 1];
      LiveInodes(recs[..|recs| - 1]) + if IsLive(r) then [r.inode] else []
  }

  lemma LiveMore(recs: seq<Rec>, r: Rec)
    ensures LiveInodes(recs + [r]) == LiveInodes(recs) + if IsLive(r) then [r.inode] else []
  {
    assert (recs + [r])[..|recs|] == recs;
  }

  lemma {:induction false} LiveNone(recs: seq<Rec>)
    ensures LiveInodes(recs) == [] <==> !AnyLive(recs)
  {
    if recs != [] {
      LiveNone(recs[..|recs| - 1]);
      assert forall i | 0 <= i < |recs| :: i == |recs| - 1 || recs[i] == recs[..|recs| - 1][i];
    }
  }

  /** The walk of `inode_delete` over a directory: it goes on to exactly the inodes of the live records, in order. */
  method Children(fs: FileSystem, dir: Inode) returns (children: seq<Word>)
    requires fs.Valid() && dir in fs.files
    ensures children == LiveInodes(Recs(fs.Contents(dir)))
    ensures children == [] <==> !AnyLive(Recs(fs.Contents(dir)))
  {
    hide Loc, LiveSet, UntilStop, Leaves, ListOf, ContentOf, Parse, Recs, Visited, LiveInodes;
    var list := VisitInodeBlocks(fs, dir, _ => false);
    ListContents(fs, dir);
    ghost var contents := fs.Contents(dir);
    RecsNone(contents[..0]);
    LiveNone([]);
    LiveNone(Recs(contents));
    children := [];
    for k := 0 to |list|
      invariant children == LiveInodes(Recs(contents[..k]))
    {
      children := LiveIn(fs.blocks[list[k]], children, Recs(contents[..k]));
      RecsNext(contents, k);
    }
    assert contents[..|list|] == contents;
  }

  /** The records of one block. */
  method LiveIn(b: Block, before: seq<Word>, ghost recs: seq<Rec>) returns (children: seq<Word>)
    requires before == LiveInodes(recs)
    ensures children == LiveInodes(recs + Parse(b, 0))
  {
    hide Parse, LiveInodes;
    var dentries, starts, size := Open(b);
    children := before;
    assert recs + dentries[..0] == recs;
    for j := 0 to |dentries|
      invariant children == LiveInodes(recs + dentries[..j])
    {
      LiveMore(recs + dentries[..j], dentries[j]);
      assert recs + dentries[..j + 1] == recs + dentries[..j] + [dentries[j]];
      if IsLive(dentries[j]) {
        children := children + [dentries[j].inode];
      }
    }
    assert dentries[..|dentries|] == dentries;
  }
}
