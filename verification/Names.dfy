/**
 * The name space as a value: allocated inodes with their link counts and directory records.  The
 * operations on it are the effects that creating, linking and unlinking have in `src/filesystem.cpp`.
 */
module Names {
  import opened Bytes
  import opened DentryBlocks

  const ROOT: Word := 0

  /** `i_links_count` is a 16-bit word. */
  const LINKS: nat := 0x1_0000

  type Path = seq<Name>
  datatype Node = Node(isDir: bool, links: nat, recs: seq<Rec>)
  type Nodes = map<Word, Node>

  /** What a lookup reports. */
  datatype Outcome = Found(value: Word) | NotFound | NotDir

  /** Record i of directory d is live and names inode x. */
  ghost predicate RefAt(nodes: Nodes, d: Word, i: nat, x: Word) {
    d in nodes && i < |nodes[d].recs| && IsLive(nodes[d].recs[i]) && nodes[d].recs[i].inode == x
  }

  /** All live records that name inode x. */
  ghost function Refs(nodes: Nodes, x: Word): set<(Word, nat)> {
    set d, i | d in nodes && 0 <= i < |nodes[d].recs| && RefAt(nodes, d, i, x) :: (d, i)
  }

  ghost predicate UniqueNames(nodes: Nodes) {
    forall d | d in nodes :: Unique(nodes[d].recs) && (!nodes[d].isDir ==> nodes[d].recs == [])
  }

  /** No live record names a free inode, and none names the root. */
  ghost predicate NoneDangling(nodes: Nodes) {
    forall d, i, x | RefAt(nodes, d, i, x) :: x in nodes && x != ROOT
  }

  /** A directory has one name. */
  ghost predicate OneName(nodes: Nodes) {
    forall d, i, e, j, x | RefAt(nodes, d, i, x) && RefAt(nodes, e, j, x) && x in nodes && nodes[x].isDir ::
        d == e && i == j
  }

  ghost predicate Shape(nodes: Nodes) {
    ROOT in nodes && nodes[ROOT].isDir && UniqueNames(nodes) && NoneDangling(nodes) && OneName(nodes)
  }

  /**
   * The link count of each inode but the root is the number of records naming it, modulo 2^16; it is
   * one less for an inode taken from a new group, which is not initialised.
   */
  ghost predicate Counted(nodes: Nodes, bare: set<Word>) {
    forall x | x in nodes && x != ROOT ::
      nodes[x].links == (|Refs(nodes, x)| - if x in bare then 1 else 0) % LINKS
  }

  /** Every inode but the root has a name. */
  ghost predicate Tight(nodes: Nodes) {
    forall x | x in nodes && x != ROOT :: Refs(nodes, x) != {}
  }

  // ---- the plain walk ----

  ghost function Child(nodes: Nodes, d: Word, name: seq<Byte>): Outcome
    requires UniqueNames(nodes)
  {
    if d !in nodes then NotFound
    else if !nodes[d].isDir then NotDir
    else if name in Entries(nodes[d].recs) then Found(Entries(nodes[d].recs)[name])
    else NotFound
  }

  /** The inode a path leads to, following directory records only. */
  ghost function Resolve(nodes: Nodes, path: Path): Outcome
    requires UniqueNames(nodes)
  {
    if path == [] then Found(ROOT)
    else
      var parent := Resolve(nodes, path[..|path| - 1]);
      if parent.Found? then Child(nodes, parent.value, path[|path| - 1]) else parent
  }

  /** A child is named by a record of its directory. */
  lemma ChildRef(nodes: Nodes, d: Word, name: seq<Byte>) returns (i: nat)
    requires UniqueNames(nodes) && Child(nodes, d, name).Found?
    ensures RefAt(nodes, d, i, Child(nodes, d, name).value) && nodes[d].recs[i].text == name
  {
    var recs := nodes[d].recs;
    i :| 0 <= i < |recs| && IsLive(recs[i]) && recs[i].text == name;
  }

  lemma ChildThere(nodes: Nodes, d: Word, name: seq<Byte>)
    requires Shape(nodes) && Child(nodes, d, name).Found?
    ensures Child(nodes, d, name).value in nodes
  {
    var i := ChildRef(nodes, d, name);
  }

  lemma RefChild(nodes: Nodes, d: Word, i: nat, x: Word)
    requires UniqueNames(nodes) && RefAt(nodes, d, i, x)
    ensures Child(nodes, d, nodes[d].recs[i].text) == Found(x)
  {
    assert nodes[d].recs[i].text in Entries(nodes[d].recs);
  }

  /** The first k components lead to a file. */
  ghost predicate FileAt(nodes: Nodes, path: Path, k: nat)
    requires UniqueNames(nodes) && k <= |path|
  {
    var r := Resolve(nodes, path[..k]);
    r.Found? && r.value in nodes && !nodes[r.value].isDir
  }

  /** The first k components lead to a directory that has no live record of the next one. */
  ghost predicate GapAt(nodes: Nodes, path: Path, k: nat)
    requires UniqueNames(nodes) && k < |path|
  {
    var r := Resolve(nodes, path[..k]);
    r.Found? && r.value in nodes && nodes[r.value].isDir && !Named(nodes[r.value].recs, path[k])
  }

  /** The first k + 1 components lead to what the record of the last one in that directory names. */
  ghost predicate RecordAt(nodes: Nodes, path: Path, k: nat, x: Word)
    requires UniqueNames(nodes) && k < |path|
  {
    var r := Resolve(nodes, path[..k]);
    r.Found? && exists i: nat :: RefAt(nodes, r.value, i, x) && nodes[r.value].recs[i].text == path[k]
  }

  /** One component: found by its record, missing from its directory, or below a file. */
  lemma ResolveStep(nodes: Nodes, path: Path, k: nat, x: Word)
    requires Shape(nodes) && k < |path| && Resolve(nodes, path[..k]).Found?
    ensures Resolve(nodes, path[..k + 1]) == Found(x) <==> RecordAt(nodes, path, k, x)
    ensures Resolve(nodes, path[..k + 1]) == NotFound <==> GapAt(nodes, path, k)
    ensures Resolve(nodes, path[..k + 1]) == NotDir <==> FileAt(nodes, path, k)
  {
    hide NoneDangling, OneName;
    var d := Resolve(nodes, path[..k]).value;
    ResolveThere(nodes, path[..k]);
    assert path[..k + 1][..k] == path[..k];
    if nodes[d].isDir {
      MapsEntries(nodes[d].recs, path[k], x);
      if Child(nodes, d, path[k]).Found? {
        var i := ChildRef(nodes, d, path[k]);
      }
      forall i: nat | RefAt(nodes, d, i, x) && nodes[d].recs[i].text == path[k]
          ensures Child(nodes, d, path[k]) == Found(x) {
        RefChild(nodes, d, i, x);
      }
    }
  }

  /** A walk fails at the first component that is missing or below a file, and reports which it was. */
  lemma {:induction false} ResolveFails(nodes: Nodes, path: Path)
    requires Shape(nodes)
    ensures Resolve(nodes, path) == NotDir <==> exists k | 0 <= k < |path| :: FileAt(nodes, path, k)
    ensures Resolve(nodes, path) == NotFound <==> exists k | 0 <= k < |path| :: GapAt(nodes, path, k)
    decreases |path|
  {
    hide NoneDangling, OneName, UniqueNames, FileAt, GapAt, Resolve;
    if path == [] {
      ResolveNone(nodes, path);
    } else {
      var m := |path| - 1;
      var front := path[..m];
      ResolveFails(nodes, front);
      forall k | 0 <= k < m
        ensures FileAt(nodes, front, k) <==> FileAt(nodes, path, k)
        ensures GapAt(nodes, front, k) <==> GapAt(nodes, path, k)
      {
        SamePart(nodes, path, front, k);
      }
      LastPart(nodes, path);
    }
  }

  lemma ResolveNone(nodes: Nodes, path: Path)
    requires UniqueNames(nodes) && path == []
    ensures Resolve(nodes, path) == Found(ROOT)
  {
  }

  lemma SamePart(nodes: Nodes, path: Path, front: Path, k: nat)
    requires UniqueNames(nodes) && k < |front| && front <= path
    ensures FileAt(nodes, front, k) <==> FileAt(nodes, path, k)
    ensures GapAt(nodes, front, k) <==> GapAt(nodes, path, k)
  {
    assert front[..k] == path[..k];
  }

  /** The last component matters only when all before it are found. */
  lemma LastPart(nodes: Nodes, path: Path)
    requires Shape(nodes) && path != []
    ensures var m := |path| - 1;
            if Resolve(nodes, path[..m]).Found?
            then (Resolve(nodes, path) == NotDir <==> FileAt(nodes, path, m))
                 && (Resolve(nodes, path) == NotFound <==> GapAt(nodes, path, m))
            else Resolve(nodes, path) == Resolve(nodes, path[..m]) && !FileAt(nodes, path, m) && !GapAt(nodes, path, m)
  {
    var m := |path| - 1;
    assert path[..m + 1] == path;
    if Resolve(nodes, path[..m]).Found? {
      ResolveStep(nodes, path, m, 0);
    }
  }

  /** A walk that fails at some component fails the same way for every longer path. */
  lemma {:induction false} ResolveStuck(nodes: Nodes, path: Path, i: nat)
    requires UniqueNames(nodes) && i <= |path| && !Resolve(nodes, path[..i]).Found?
    ensures Resolve(nodes, path) == Resolve(nodes, path[..i])
    decreases |path|
  {
    hide UniqueNames, Child;
    if i == |path| {
      assert path[..i] == path;
    } else {
      assert path[..|path| - 1][..i] == path[..i];
      ResolveStuck(nodes, path[..|path| - 1], i);
    }
  }

  lemma ResolveThere(nodes: Nodes, path: Path)
    requires Shape(nodes) && Resolve(nodes, path).Found?
    ensures Resolve(nodes, path).value in nodes
    ensures path != [] ==> Resolve(nodes, path).value != ROOT && Resolve(nodes, path[..|path| - 1]).Found?
  {
    if path != [] {
      var i := ChildRef(nodes, Resolve(nodes, path[..|path| - 1]).value, path[|path| - 1]);
    }
  }

  /** Different paths lead to different directories. */
  lemma {:induction false} DirectoryPath(nodes: Nodes, p: Path, q: Path, x: Word)
    requires Shape(nodes) && x in nodes && nodes[x].isDir
    requires Resolve(nodes, p) == Found(x) && Resolve(nodes, q) == Found(x)
    ensures p == q
    decreases |p|
  {
    hide Entries, Unique;
    if p == [] || q == [] {
      ResolveThere(nodes, p);
      ResolveThere(nodes, q);
    } else {
      var p', q' := p[..|p| - 1], q[..|q| - 1];
      var d, e := Resolve(nodes, p').value, Resolve(nodes, q').value;
      var i := ChildRef(nodes, d, p[|p| - 1]);
      var j := ChildRef(nodes, e, q[|q| - 1]);
      assert d == e && i == j;
      DirectoryPath(nodes, p', q', d);
      Rejoined(p, |p| - 1);
      Rejoined(q, |q| - 1);
    }
  }

  // ---- the changes that operations make ----

  function WithRecord(nodes: Nodes, d: Word, r: Rec): Nodes
    requires d in nodes
  {
    nodes[d := nodes[d].(recs := nodes[d].recs + [r])]
  }

  function WithLinks(nodes: Nodes, x: Word, links: nat): Nodes
    requires x in nodes
  {
    nodes[x := nodes[x].(links := links)]
  }

  function WithoutRecord(nodes: Nodes, d: Word, i: nat): Nodes
    requires d in nodes && i < |nodes[d].recs|
  {
    nodes[d := nodes[d].(recs := nodes[d].recs[i := Erased(nodes[d].recs[i])])]
  }

  /** `inode_create`: a new inode and a record for it. */
  function Created(nodes: Nodes, d: Word, r: Rec, isDir: bool, links: nat): Nodes
    requires d in nodes
  {
    WithRecord(nodes[r.inode := Node(isDir, links, [])], d, r)
  }

  /** `inode_link`: a further record for an inode, and one link more. */
  function Linked(nodes: Nodes, d: Word, r: Rec): Nodes
    requires d in nodes && r.inode in nodes
  {
    WithLinks(WithRecord(nodes, d, r), r.inode, (nodes[r.inode].links + 1) % LINKS)
  }

  /** `inode_unlink`: record i is erased and one link taken; at zero links the inode is freed. */
  function Unlinked(nodes: Nodes, d: Word, i: nat): Nodes
    requires d in nodes && i < |nodes[d].recs| && nodes[d].recs[i].inode in nodes
  {
    var x, m := nodes[d].recs[i].inode, WithoutRecord(nodes, d, i);
    var links := (nodes[x].links + LINKS - 1) % LINKS;
    if links == 0 then m - {x} else WithLinks(m, x, links)
  }

  /** The live records of m are those of nodes, and record i of directory d. */
  ghost predicate GainsRef(nodes: Nodes, m: Nodes, d: Word, i: nat, x: Word) {
    && !RefAt(nodes, d, i, x)
    && forall e, j, y :: RefAt(m, e, j, y) <==> RefAt(nodes, e, j, y) || (e == d && j == i && y == x)
  }

  lemma GainedRefs(nodes: Nodes, m: Nodes, d: Word, i: nat, x: Word, y: Word)
    requires GainsRef(nodes, m, d, i, x)
    ensures Refs(m, y) == if y == x then Refs(nodes, y) + {(d, i)} else Refs(nodes, y)
    ensures |Refs(m, y)| == |Refs(nodes, y)| + if y == x then 1 else 0
  {
    assert Refs(m, y) == if y == x then Refs(nodes, y) + {(d, i)} else Refs(nodes, y);
  }

  lemma RecordGained(nodes: Nodes, d: Word, r: Rec)
    requires d in nodes && IsLive(r)
    ensures GainsRef(nodes, WithRecord(nodes, d, r), d, |nodes[d].recs|, r.inode)
  {
  }

  lemma RecordLost(nodes: Nodes, d: Word, i: nat, x: Word)
    requires RefAt(nodes, d, i, x)
    ensures GainsRef(WithoutRecord(nodes, d, i), nodes, d, i, x)
  {
  }

  /** The same live records. */
  ghost predicate SameRefs(nodes: Nodes, m: Nodes) {
    forall e, j, y :: RefAt(m, e, j, y) <==> RefAt(nodes, e, j, y)
  }

  // ---- what each operation keeps ----

  /** Creating keeps the shape of the name space, and gives the new inode its only name. */
  lemma CreatedShape(nodes: Nodes, d: Word, r: Rec, isDir: bool, links: nat)
    requires Shape(nodes) && d in nodes && nodes[d].isDir && r.inode !in nodes && IsLive(r)
             && !Named(nodes[d].recs, r.text)
    ensures Refs(nodes, r.inode) == {}
    ensures Shape(Created(nodes, d, r, isDir, links))
    ensures GainsRef(nodes, Created(nodes, d, r, isDir, links), d, |nodes[d].recs|, r.inode)
  {
    hide Unique, Entries;
    var n1, m := nodes[r.inode := Node(isDir, links, [])], Created(nodes, d, r, isDir, links);
    assert SameRefs(nodes, n1);
    RecordGained(n1, d, r);
    AddEntry(nodes[d].recs, r);
    UniqueNone();
  }

  lemma UniqueNone()
    ensures Unique([])
  {
  }

  lemma CreatedCounted(nodes: Nodes, d: Word, r: Rec, isDir: bool, links: nat, bare: set<Word>)
    requires Shape(nodes) && d in nodes && nodes[d].isDir && r.inode !in nodes && IsLive(r)
             && !Named(nodes[d].recs, r.text)
    requires Counted(nodes, bare) && links < 2
    ensures Counted(Created(nodes, d, r, isDir, links), if links == 1 then bare - {r.inode} else bare + {r.inode})
    ensures Tight(nodes) ==> Tight(Created(nodes, d, r, isDir, links))
  {
    hide Shape, GainsRef, Refs;
    CreatedShape(nodes, d, r, isDir, links);
    var m := Created(nodes, d, r, isDir, links);
    forall y ensures |Refs(m, y)| == |Refs(nodes, y)| + (if y == r.inode then 1 else 0)
        && (Refs(nodes, y) != {} ==> Refs(m, y) != {}) {
      GainedRefs(nodes, m, d, |nodes[d].recs|, r.inode, y);
    }
    GainedRefs(nodes, m, d, |nodes[d].recs|, r.inode, r.inode);
  }

  lemma LinkedShape(nodes: Nodes, d: Word, r: Rec)
    requires Shape(nodes) && d in nodes && nodes[d].isDir && IsLive(r) && !Named(nodes[d].recs, r.text)
    requires r.inode in nodes && !nodes[r.inode].isDir
    ensures Shape(Linked(nodes, d, r)) && GainsRef(nodes, Linked(nodes, d, r), d, |nodes[d].recs|, r.inode)
  {
    hide Unique, Entries;
    var n1 := WithRecord(nodes, d, r);
    RecordGained(nodes, d, r);
    assert SameRefs(n1, Linked(nodes, d, r));
    AddEntry(nodes[d].recs, r);
  }

  lemma LinkedCounted(nodes: Nodes, d: Word, r: Rec, bare: set<Word>)
    requires Shape(nodes) && d in nodes && nodes[d].isDir && IsLive(r) && !Named(nodes[d].recs, r.text)
    requires r.inode in nodes && !nodes[r.inode].isDir && Counted(nodes, bare)
    ensures Counted(Linked(nodes, d, r), bare)
    ensures Tight(nodes) ==> Tight(Linked(nodes, d, r))
  {
    hide Shape, GainsRef, Refs;
    LinkedShape(nodes, d, r);
    LinksStep(|Refs(nodes, r.inode)| - if r.inode in bare then 1 else 0);
    var m := Linked(nodes, d, r);
    forall y ensures |Refs(m, y)| == |Refs(nodes, y)| + (if y == r.inode then 1 else 0)
        && (Refs(nodes, y) != {} ==> Refs(m, y) != {}) {
      GainedRefs(nodes, m, d, |nodes[d].recs|, r.inode, y);
    }
  }

  /** Inode x is a file or an empty directory. */
  ghost predicate Childless(nodes: Nodes, x: Word) {
    x in nodes && forall i | 0 <= i < |nodes[x].recs| :: !IsLive(nodes[x].recs[i])
  }

  lemma ChildlessKept(nodes: Nodes, d: Word, i: nat, x: Word)
    requires Childless(nodes, x) && d in nodes && i < |nodes[d].recs|
    ensures Childless(WithoutRecord(nodes, d, i), x)
  {
  }

  lemma UnlinkedRefs(nodes: Nodes, d: Word, i: nat, x: Word)
    requires RefAt(nodes, d, i, x) && Childless(nodes, x)
    ensures GainsRef(Unlinked(nodes, d, i), nodes, d, i, x)
  {
    RecordLost(nodes, d, i, x);
    assert SameRefs(WithoutRecord(nodes, d, i), Unlinked(nodes, d, i));
  }

  /** Unlinking keeps everything but one thing: a record dangles exactly when the inode was freed with names left. */
  lemma UnlinkedShape(nodes: Nodes, d: Word, i: nat, x: Word)
    requires Shape(nodes) && RefAt(nodes, d, i, x) && Childless(nodes, x)
    ensures x != ROOT && x != d
    ensures var m := Unlinked(nodes, d, i);
            && GainsRef(m, nodes, d, i, x)
            && ROOT in m && m[ROOT].isDir && UniqueNames(m) && OneName(m)
            && (NoneDangling(m) <==> x in m || Refs(m, x) == {})
  {
    hide Unique, Entries;
    var m := Unlinked(nodes, d, i);
    UnlinkedRefs(nodes, d, i, x);
    EraseEntry(nodes[d].recs, i);
    assert m.Keys == nodes.Keys || m.Keys == nodes.Keys - {x};
    DanglingOnly(nodes, m, x);
  }

  /** Among records of nodes, only those naming x can dangle when x is all that went. */
  lemma DanglingOnly(nodes: Nodes, m: Nodes, x: Word)
    requires NoneDangling(nodes) && nodes.Keys - {x} <= m.Keys
    requires forall e, j, y | RefAt(m, e, j, y) :: RefAt(nodes, e, j, y)
    ensures x != ROOT ==> (NoneDangling(m) <==> x in m || Refs(m, x) == {})
  {
    if NoneDangling(m) && Refs(m, x) != {} {
      var ref :| ref in Refs(m, x);
      assert RefAt(m, ref.0, ref.1, x);
    }
    forall e: Word, j: nat, y: Word | RefAt(m, e, j, y) && (x in m || Refs(m, x) == {}) ensures y in m && y != ROOT {
      assert (e, j) in Refs(m, y);
    }
  }

  lemma LinksStep(k: int)
    ensures (k % LINKS + 1) % LINKS == (k + 1) % LINKS && ((k + 1) % LINKS + LINKS - 1) % LINKS == k % LINKS
  {
  }

  /** Link counts stay right, and the inode is freed exactly when the count comes to zero. */
  lemma UnlinkedCounted(nodes: Nodes, d: Word, i: nat, x: Word, bare: set<Word>)
    requires Shape(nodes) && RefAt(nodes, d, i, x) && Childless(nodes, x) && Counted(nodes, bare)
    ensures var m := Unlinked(nodes, d, i);
            && Counted(m, bare)
            && |Refs(nodes, x)| == |Refs(m, x)| + 1
            && (x !in m <==> (|Refs(m, x)| - if x in bare then 1 else 0) % LINKS == 0)
  {
    hide Shape, GainsRef, Refs;
    UnlinkedShape(nodes, d, i, x);
    var m := Unlinked(nodes, d, i);
    forall y ensures |Refs(nodes, y)| == |Refs(m, y)| + (if y == x then 1 else 0) {
      GainedRefs(m, nodes, d, i, x, y);
    }
    LinksStep(|Refs(m, x)| - if x in bare then 1 else 0);
  }

  /**
   * The inode is freed exactly when its last name goes, if and only if it was initialised and the names
   * left are no positive multiple of 2^16, or it was not initialised and names are left, but not
   * one more than a multiple of 2^16.
   */
  lemma FreedWithLastName(nodes: Nodes, d: Word, i: nat, x: Word, bare: set<Word>)
    requires Shape(nodes) && RefAt(nodes, d, i, x) && Childless(nodes, x) && Counted(nodes, bare)
    ensures var m, left := Unlinked(nodes, d, i), |Refs(nodes, x)| - 1;
            (x !in m <==> Refs(m, x) == {}) <==>
              if x in bare then left > 0 && left % LINKS != 1 else left == 0 || left % LINKS != 0
  {
    hide Shape, Counted, Refs, Unlinked;
    UnlinkedCounted(nodes, d, i, x, bare);
  }

  /** The invariant of the name space when inodes are initialised and have fewer than 2^16 names. */
  ghost predicate Good(nodes: Nodes) {
    && Shape(nodes) && Tight(nodes)
    && forall x | x in nodes && x != ROOT :: nodes[x].links == |Refs(nodes, x)| < LINKS
  }

  lemma GoodCounted(nodes: Nodes)
    requires Shape(nodes) && Tight(nodes) && Counted(nodes, {}) && forall x | x in nodes && x != ROOT ::
             |Refs(nodes, x)| < LINKS
    ensures Good(nodes)
  {
    hide Shape, Tight, Refs;
  }

  lemma CreatedGood(nodes: Nodes, d: Word, r: Rec, isDir: bool)
    requires Good(nodes) && d in nodes && nodes[d].isDir && r.inode !in nodes && IsLive(r)
             && !Named(nodes[d].recs, r.text)
    ensures Good(Created(nodes, d, r, isDir, 1))
  {
    hide Shape, Tight, Refs, GainsRef, Named;
    var m := Created(nodes, d, r, isDir, 1);
    CreatedShape(nodes, d, r, isDir, 1);
    CreatedCounted(nodes, d, r, isDir, 1, {});
    forall y ensures |Refs(m, y)| == |Refs(nodes, y)| + if y == r.inode then 1 else 0 {
      GainedRefs(nodes, m, d, |nodes[d].recs|, r.inode, y);
    }
    GoodCounted(m);
  }

  /** A link keeps the invariant exactly when the inode does not come to 2^16 names. */
  lemma LinkedGood(nodes: Nodes, d: Word, r: Rec)
    requires Good(nodes) && d in nodes && nodes[d].isDir && IsLive(r) && !Named(nodes[d].recs, r.text)
    requires r.inode in nodes && !nodes[r.inode].isDir
    ensures Good(Linked(nodes, d, r)) <==> nodes[r.inode].links < LINKS - 1
  {
    hide Tight, Refs, GainsRef, Named, UniqueNames, NoneDangling, OneName;
    var m := Linked(nodes, d, r);
    LinkedShape(nodes, d, r);
    LinkedCounted(nodes, d, r, {});
    forall y ensures |Refs(m, y)| == |Refs(nodes, y)| + if y == r.inode then 1 else 0 {
      GainedRefs(nodes, m, d, |nodes[d].recs|, r.inode, y);
    }
    if nodes[r.inode].links < LINKS - 1 {
      GoodCounted(m);
    }
  }

  /** Unlinking keeps the invariant, and frees the inode exactly when its last name goes. */
  lemma UnlinkedGood(nodes: Nodes, d: Word, i: nat, x: Word)
    requires Good(nodes) && RefAt(nodes, d, i, x) && Childless(nodes, x)
    ensures Good(Unlinked(nodes, d, i))
    ensures x !in Unlinked(nodes, d, i) <==> Refs(nodes, x) == {(d, i)}
  {
    hide Refs, GainsRef, Named, UniqueNames, OneName, Unlinked;
    var m := Unlinked(nodes, d, i);
    UnlinkedShape(nodes, d, i, x);
    UnlinkedCounted(nodes, d, i, x, {});
    FreedWithLastName(nodes, d, i, x, {});
    UnlinkedOnly(nodes, d, i, x);
    forall y ensures |Refs(nodes, y)| == |Refs(m, y)| + (if y == x then 1 else 0)
        && (y != x ==> Refs(nodes, y) == Refs(m, y)) {
      GainedRefs(m, nodes, d, i, x, y);
    }
    GainedRefs(m, nodes, d, i, x, x);
    assert Refs(m, x) == {} ==> Refs(nodes, x) == {(d, i)};
    if Refs(nodes, x) == {(d, i)} {
      assert |Refs(m, x)| == 0;
    }
    GoodCounted(m);
  }

  lemma UnlinkedOnly(nodes: Nodes, d: Word, i: nat, x: Word)
    requires RefAt(nodes, d, i, x) && x in nodes
    ensures Unlinked(nodes, d, i).Keys <= nodes.Keys
  {
  }

  // ---- where the invariant is lost ----

  /** An inode from a new group that gets a second name is freed when one of the two goes. */
  lemma NewGroupDangles()
    ensures var empty: Nodes := map[ROOT := Node(true, 1, [])];
            var created := Created(empty, ROOT, NewRec([97], 1, 8), false, 0);
            var linked := Linked(created, ROOT, NewRec([98], 1, 8));
            && Good(empty)
            && 1 !in Unlinked(linked, ROOT, 0) && RefAt(Unlinked(linked, ROOT, 0), ROOT, 1, 1)
  {
    OnlyRoot();
  }

  /** The name space of a new volume. */
  lemma OnlyRoot()
    ensures Good(map[ROOT := Node(true, 1, [])])
  {
    var empty: Nodes := map[ROOT := Node(true, 1, [])];
    UniqueNone();
    assert forall d, i, x :: !RefAt(empty, d, i, x);
  }

  function NumberedName(i: nat): Name
    requires i <= LINKS
  {
    var q := i / 255;
    [1 + i % 255, 1 + q % 255, 1 + q / 255]
  }

  function NumberedRecs(n: nat): (recs: seq<Rec>)
    requires n <= LINKS + 1
    ensures |recs| == n && forall i | 0 <= i < n :: recs[i] == NewRec(NumberedName(i), 1, 8)
  {
    seq(n, i requires 0 <= i < n => NewRec(NumberedName(i), 1, 8))
  }

  lemma NumberedNamesDiffer(i: nat, j: nat)
    requires i <= LINKS && j <= LINKS && NumberedName(i) == NumberedName(j)
    ensures i == j
  {
    var a, b, p, q := NumberedName(i), NumberedName(j), i / 255, j / 255;
    assert a[0] == b[0] && a[1] == b[1] && a[2] == b[2];
    assert p == 255 * (p / 255) + p % 255 && q == 255 * (q / 255) + q % 255;
    assert i == 255 * p + i % 255 && j == 255 * q + j % 255;
  }

  /** Inode 1 with all its names in the root directory. */
  function Named1(recs: seq<Rec>): Nodes {
    map[ROOT := Node(true, 1, recs), 1 := Node(false, |recs| % LINKS, [])]
  }

  ghost function FirstRefs(n: nat): (refs: set<(Word, nat)>)
    ensures |refs| == n && forall d: Word, i: nat :: (d, i) in refs <==> d == ROOT && i < n
  {
    if n == 0 then {} else FirstRefs(n - 1) + {(ROOT, n - 1)}
  }

  lemma Named1RefAt(recs: seq<Rec>, d: Word, i: nat, x: Word)
    requires forall i | 0 <= i < |recs| :: IsLive(recs[i]) && recs[i].inode == 1
    ensures RefAt(Named1(recs), d, i, x) <==> d == ROOT && i < |recs| && x == 1
  {
    assert Named1(recs)[1].recs == [];
  }

  lemma Named1Refs(recs: seq<Rec>)
    requires forall i | 0 <= i < |recs| :: IsLive(recs[i]) && recs[i].inode == 1
    ensures forall d, i: nat, x :: RefAt(Named1(recs), d, i, x) <==> d == ROOT && i < |recs| && x == 1
    ensures Refs(Named1(recs), 1) == FirstRefs(|recs|)
  {
    hide FirstRefs, RefAt;
    forall d, i: nat, x ensures RefAt(Named1(recs), d, i, x) <==> d == ROOT && i < |recs| && x == 1 {
      Named1RefAt(recs, d, i, x);
    }
    forall ref: (Word, nat) ensures ref in Refs(Named1(recs), 1) <==> ref in FirstRefs(|recs|) {
      assert ref == (ref.0, ref.1);
    }
  }

  lemma Named1Counted(recs: seq<Rec>)
    requires Unique(recs) && recs != [] && forall i | 0 <= i < |recs| :: IsLive(recs[i]) && recs[i].inode == 1
    ensures Shape(Named1(recs)) && Tight(Named1(recs)) && Counted(Named1(recs), {})
  {
    hide Unique, RefAt, Refs, FirstRefs;
    UniqueNone();
    Named1Refs(recs);
    assert |FirstRefs(|recs|)| == |recs|;
  }

  /** With 2^16 + 1 names, the inode is freed when one of them goes, and the others dangle. */
  lemma WrapDangles()
    ensures var nodes := Named1(NumberedRecs(LINKS + 1));
            && Shape(nodes) && Tight(nodes) && Counted(nodes, {})
            && 1 !in Unlinked(nodes, ROOT, 0) && RefAt(Unlinked(nodes, ROOT, 0), ROOT, 1, 1)
  {
    hide Shape, Tight, Counted;
    var recs := NumberedRecs(LINKS + 1);
    forall i, j | 0 <= i < |recs| && 0 <= j < |recs| && i != j ensures recs[i].text != recs[j].text {
      if recs[i].text == recs[j].text {
        NumberedNamesDiffer(i, j);
      }
    }
    Named1Counted(recs);
  }

  // ---- the directory cache ----

  /** The cached nodes form a tree: the ancestors of a cached path are cached too. */
  ghost predicate Rooted(cache: map<Path, Word>) {
    forall p | p in cache :: p != [] && (|p| > 1 ==> p[..|p| - 1] in cache)
  }

  /** Every cached path leads to the inode it is cached with. */
  ghost predicate CacheOk(nodes: Nodes, cache: map<Path, Word>)
    requires UniqueNames(nodes)
  {
    Rooted(cache) && forall p | p in cache :: Resolve(nodes, p) == Found(cache[p])
  }

  /** Removing a cache node takes its subtree along. */
  function Cut<T>(cache: map<Path, T>, path: Path): map<Path, T> {
    map p | p in cache && !(path <= p) :: cache[p]
  }

  /** All children are kept, except possibly the one called name in directory d. */
  ghost predicate ChildrenKept(nodes: Nodes, m: Nodes, d: Word, name: seq<Byte>, all: bool)
    requires UniqueNames(nodes) && UniqueNames(m)
  {
    forall e, s | Child(nodes, e, s).Found? && (all || e != d || s != name) :: Child(m, e, s) == Child(nodes, e, s)
  }

  lemma {:induction false} ResolveGrows(nodes: Nodes, m: Nodes, p: Path)
    requires UniqueNames(nodes) && UniqueNames(m) && ChildrenKept(nodes, m, 0, [], true)
    requires Resolve(nodes, p).Found?
    ensures Resolve(m, p) == Resolve(nodes, p)
  {
    hide UniqueNames, Child;
    if p != [] {
      ResolveGrows(nodes, m, p[..|p| - 1]);
    }
  }

  /** A path that does not go through the removed entry leads where it did. */
  lemma {:induction false} ResolveWithout(nodes: Nodes, m: Nodes, dirPath: Path, d: Word, name: Name, p: Path)
    requires Shape(nodes) && UniqueNames(m) && ChildrenKept(nodes, m, d, name, false)
    requires Resolve(nodes, dirPath) == Found(d) && d in nodes && nodes[d].isDir
    requires Resolve(nodes, p).Found? && !(dirPath + [name] <= p)
    ensures Resolve(m, p) == Resolve(nodes, p)
    decreases |p|
  {
    hide UniqueNames, NoneDangling, OneName, Child;
    if p != [] {
      var p' := p[..|p| - 1];
      ResolveWithout(nodes, m, dirPath, d, name, p');
      if Resolve(nodes, p').value == d && p[|p| - 1] == name {
        DirectoryPath(nodes, p', dirPath, d);
        Rejoined(p, |p| - 1);
      }
    }
  }

  lemma EntryKept(nodes: Nodes, m: Nodes, e: Word, s: seq<Byte>, i: nat, j: nat)
    requires UniqueNames(nodes) && UniqueNames(m)
    requires e in nodes && i < |nodes[e].recs| && IsLive(nodes[e].recs[i]) && nodes[e].recs[i].text == s
    requires e in m && j < |m[e].recs| && m[e].recs[j] == nodes[e].recs[i] && nodes[e].isDir == m[e].isDir
    ensures Child(m, e, s) == Child(nodes, e, s)
  {
    RefChild(nodes, e, i, nodes[e].recs[i].inode);
    RefChild(m, e, j, m[e].recs[j].inode);
  }

  /** Directories keep their records and may gain some. */
  ghost predicate Grows(nodes: Nodes, m: Nodes) {
    forall e | e in nodes :: e in m && nodes[e].isDir == m[e].isDir && nodes[e].recs <= m[e].recs
  }

  /** A path that leads somewhere leads there after records have been added. */
  lemma PathGrows(nodes: Nodes, m: Nodes, p: Path)
    requires UniqueNames(nodes) && UniqueNames(m) && Grows(nodes, m) && Resolve(nodes, p).Found?
    ensures Resolve(m, p) == Resolve(nodes, p)
  {
    hide UniqueNames, Entries;
    forall e, s | Child(nodes, e, s).Found? ensures Child(m, e, s) == Child(nodes, e, s) {
      var i := ChildRef(nodes, e, s);
      EntryKept(nodes, m, e, s, i, i);
    }
    ResolveGrows(nodes, m, p);
  }

  /** Creating and linking leave every cached path right. */
  lemma CacheGrows(nodes: Nodes, m: Nodes, cache: map<Path, Word>)
    requires UniqueNames(nodes) && UniqueNames(m) && Grows(nodes, m) && CacheOk(nodes, cache)
    ensures CacheOk(m, cache)
  {
    hide UniqueNames, Rooted, Resolve;
    forall p | p in cache ensures Resolve(m, p) == Resolve(nodes, p) {
      PathGrows(nodes, m, p);
    }
  }

  lemma UnlinkedChildren(nodes: Nodes, d: Word, i: nat, x: Word)
    requires Shape(nodes) && RefAt(nodes, d, i, x) && Childless(nodes, x)
    ensures UniqueNames(Unlinked(nodes, d, i))
    ensures ChildrenKept(nodes, Unlinked(nodes, d, i), d, nodes[d].recs[i].text, false)
  {
    hide UniqueNames, Entries;
    UnlinkedShape(nodes, d, i, x);
    var m := Unlinked(nodes, d, i);
    forall e, s | Child(nodes, e, s).Found? && (e != d || s != nodes[d].recs[i].text)
      ensures Child(m, e, s) == Child(nodes, e, s)
    {
      var j := ChildRef(nodes, e, s);
      EntryKept(nodes, m, e, s, j, j);
    }
  }

  /** Unlinking leaves every cached path right once the node of the unlinked path is gone with its subtree. */
  lemma CacheCut(nodes: Nodes, dirPath: Path, d: Word, i: nat, x: Word, name: Name, cache: map<Path, Word>)
    requires Shape(nodes) && RefAt(nodes, d, i, x) && Childless(nodes, x) && CacheOk(nodes, cache)
    requires Resolve(nodes, dirPath) == Found(d) && nodes[d].isDir && nodes[d].recs[i].text == name
    ensures UniqueNames(Unlinked(nodes, d, i)) && CacheOk(Unlinked(nodes, d, i), Cut(cache, dirPath + [name]))
  {
    hide UniqueNames, NoneDangling, OneName, Unlinked, Child, Resolve, Rooted;
    UnlinkedChildren(nodes, d, i, x);
    var m, path := Unlinked(nodes, d, i), dirPath + [name];
    RootedCut(cache, path);
    forall p | p in cache && !(path <= p) ensures Resolve(m, p) == Resolve(nodes, p) {
      ResolveWithout(nodes, m, dirPath, d, name, p);
    }
  }

  lemma RootedCut(cache: map<Path, Word>, path: Path)
    requires Rooted(cache)
    ensures Rooted(Cut(cache, path))
  {
  }

  // ---- what the operations answer ----

  /** The return codes; the last one stands for whatever happens once file data was taken for directory records. */
  datatype Code = Success | InvalidErr | DupErr | NotFoundErr | NotDirErr | DirErr | NotEmptyErr | AllocErr | StrayErr

  function CodeOf(ret: Outcome): Code {
    match ret
    case Found(_) => Success
    case NotFound => NotFoundErr
    case NotDir => NotDirErr
  }

  /** The path of the directory that holds the last component. */
  function Above(path: Path): Path {
    if path == [] then [] else path[..|path| - 1]
  }

  /** The parent of the last component is a directory, or does not exist. */
  ghost predicate ParentOk(nodes: Nodes, path: Path)
    requires UniqueNames(nodes)
  {
    path != [] ==>
      var parent := Resolve(nodes, Above(path));
      parent.Found? ==> parent.value in nodes && nodes[parent.value].isDir
  }

  /**
   * What the walk of `inode_lookup` reports: it does not check the parent of the last component, and a
   * file there is searched like a directory.  Without a matching record in its data, nothing is found.
   */
  ghost function Walked(nodes: Nodes, path: Path): Outcome
    requires UniqueNames(nodes)
  {
    if ParentOk(nodes, path) then Resolve(nodes, path) else NotFound
  }

  /** The walk reports what it should exactly when the parent is not a file. */
  lemma WalkedExact(nodes: Nodes, path: Path)
    requires Shape(nodes)
    ensures Walked(nodes, path) == Resolve(nodes, path) <==> ParentOk(nodes, path)
    ensures !ParentOk(nodes, path) ==>
              path != [] && Resolve(nodes, Above(path)).Found? && Resolve(nodes, path) == NotDir
    ensures !ParentOk(nodes, path) ==> var f := Resolve(nodes, Above(path)).value; f in nodes && !nodes[f].isDir
  {
    hide Entries, Unique;
    if !ParentOk(nodes, path) {
      ResolveThere(nodes, Above(path));
      ResolveLast(nodes, path);
    }
  }

  /** An empty file f: looking up f/x reports that there is nothing, where f is not a directory. */
  lemma FileParent()
    ensures var nodes: Nodes := map[ROOT := Node(true, 1, [NewRec([102], 1, 8)]), 1 := Node(false, 1, [])];
            && Good(nodes)
            && Resolve(nodes, [[102], [120]]) == NotDir && !ParentOk(nodes, [[102], [120]])
            && Walked(nodes, [[102], [120]]) == NotFound
  {
    var recs := [NewRec([102], 1, 8)];
    var nodes: Nodes := map[ROOT := Node(true, 1, recs), 1 := Node(false, 1, [])];
    assert nodes == Named1(recs);
    Named1Counted(recs);
    Named1Refs(recs);
    var f: Name, x: Name := [102], [120];
    var path: Path := [f, x];
    assert path[..1] == [f] && [f][..0] == [];
    RefChild(nodes, ROOT, 0, 1);
    assert Resolve(nodes, [f]) == Found(1);
  }

  /** A path that leads somewhere has directories above it. */
  lemma FoundParents(nodes: Nodes, path: Path)
    requires Shape(nodes) && Resolve(nodes, path).Found?
    ensures ParentOk(nodes, path) && ParentOk(nodes, Above(path))
  {
    hide Entries, Unique;
    if path != [] {
      ResolveLast(nodes, path);
      if Above(path) != [] {
        ResolveLast(nodes, Above(path));
      }
    }
  }

  lemma ChildOfFile(nodes: Nodes, d: Word, name: seq<Byte>)
    requires UniqueNames(nodes) && d in nodes && !nodes[d].isDir
    ensures Child(nodes, d, name) == NotDir
  {
  }

  /** The answer of `inode_create` when allocation succeeds: the parent is checked first, then the name. */
  ghost function CreateCode(nodes: Nodes, path: Path): Code
    requires UniqueNames(nodes)
  {
    if path == [] then DupErr
    else
      var parent := Walked(nodes, Above(path));
      if !parent.Found? then CodeOf(parent)
      else match Child(nodes, parent.value, path[|path| - 1])
           case Found(_) => DupErr
           case NotFound => Success
           case NotDir => NotDirErr
  }

  /** What creation answers, by where the path and its directory lead; below a file nothing is found. */
  lemma CreateAnswer(nodes: Nodes, path: Path)
    requires Shape(nodes)
    ensures !ParentOk(nodes, Above(path)) ==> CreateCode(nodes, path) == NotFoundErr
    ensures var code, r := CreateCode(nodes, path), Resolve(nodes, path);
            ParentOk(nodes, Above(path)) ==>
              && (code == DupErr <==> r.Found?)
              && (code == NotDirErr <==> r == NotDir)
              && (code == NotFoundErr <==> r == NotFound && !Resolve(nodes, Above(path)).Found?)
              && (code == Success <==> r == NotFound && Resolve(nodes, Above(path)).Found?)
  {
    if path != [] {
      ResolveLast(nodes, path);
    }
  }

  /** Inode x, which was free, now has the path as its only name, and nothing else changed. */
  ghost predicate CreateDone(n0: Nodes, n1: Nodes, path: Path, x: Word, fileType: Byte, isDir: bool, links: nat) {
    && UniqueNames(n0) && UniqueNames(n1) && x !in n0
    && path != [] && Resolve(n1, path) == Found(x)
    && var parent := Resolve(n0, Above(path));
    && parent.Found? && parent.value in n0
    && n1 == Created(n0, parent.value, NewRec(path[|path| - 1], x, fileType), isDir, links)
  }

  /** The answer of `inode_link` when allocation succeeds. */
  ghost function LinkCode(nodes: Nodes, src: Path, dst: Path): Code
    requires UniqueNames(nodes)
  {
    if src == [] || dst == [] then DupErr
    else
      var x := Walked(nodes, src);
      if !x.Found? then CodeOf(x)
      else if x.value in nodes && nodes[x.value].isDir then DirErr
      else CreateCode(nodes, dst)
  }

  ghost predicate LeadsToDir(nodes: Nodes, path: Path)
    requires UniqueNames(nodes)
  {
    var r := Resolve(nodes, path);
    r.Found? && r.value in nodes && nodes[r.value].isDir
  }

  ghost predicate LeadsToFile(nodes: Nodes, path: Path)
    requires UniqueNames(nodes)
  {
    var r := Resolve(nodes, path);
    r.Found? && r.value in nodes && !nodes[r.value].isDir
  }

  /** What linking answers: the source must be a file, and the new name free as for a creation. */
  lemma LinkAnswer(nodes: Nodes, src: Path, dst: Path)
    requires Shape(nodes)
    ensures src == [] || dst == [] ==> LinkCode(nodes, src, dst) == DupErr
    ensures src != [] && dst != [] && !ParentOk(nodes, src) ==> LinkCode(nodes, src, dst) == NotFoundErr
    ensures src != [] && dst != [] && ParentOk(nodes, src) ==>
              var code, r := LinkCode(nodes, src, dst), Resolve(nodes, src);
              && (r == NotFound ==> code == NotFoundErr)
              && (r == NotDir ==> code == NotDirErr)
              && (code == DirErr <==> LeadsToDir(nodes, src))
              && (LeadsToFile(nodes, src) ==> code == CreateCode(nodes, dst))
              && (code == Success <==> LeadsToFile(nodes, src) && CreateCode(nodes, dst) == Success)
              && (r.Found? <==> LeadsToDir(nodes, src) || LeadsToFile(nodes, src))
  {
    hide NoneDangling, OneName, Child, Resolve, ParentOk;
    if Resolve(nodes, src).Found? {
      ResolveThere(nodes, src);
    }
  }

  const REGULAR: Byte := 8

  /** The file called src now has the name dst as well, and nothing else changed. */
  ghost predicate LinkDone(n0: Nodes, n1: Nodes, src: Path, dst: Path) {
    && UniqueNames(n0) && UniqueNames(n1) && dst != []
    && var x, parent := Resolve(n0, src), Resolve(n0, Above(dst));
    && x.Found? && x.value in n0 && Resolve(n1, src) == x && Resolve(n1, dst) == x
    && parent.Found? && parent.value in n0
    && n1 == Linked(n0, parent.value, NewRec(dst[|dst| - 1], x.value, REGULAR))
  }

  /** The answer of `inode_unlink`. */
  ghost function UnlinkCode(nodes: Nodes, path: Path): Code
    requires UniqueNames(nodes)
  {
    if path == [] then InvalidErr
    else
      var parent := Walked(nodes, Above(path));
      if !parent.Found? then CodeOf(parent) else CodeOf(Child(nodes, parent.value, path[|path| - 1]))
  }

  lemma UnlinkAnswer(nodes: Nodes, path: Path)
    requires Shape(nodes)
    ensures path == [] ==> UnlinkCode(nodes, path) == InvalidErr
    ensures path != [] && !ParentOk(nodes, Above(path)) ==> UnlinkCode(nodes, path) == NotFoundErr
    ensures var code, r := UnlinkCode(nodes, path), Resolve(nodes, path);
            path != [] && ParentOk(nodes, Above(path)) ==>
              && (code == Success <==> r.Found?)
              && (code == NotFoundErr <==> r == NotFound)
              && (code == NotDirErr <==> r == NotDir)
  {
    if path != [] {
      ResolveLast(nodes, path);
    }
  }

  /** The answer to a removal: a directory must be empty. */
  ghost function RemoveCode(nodes: Nodes, path: Path): Code
    requires UniqueNames(nodes)
  {
    var r := Walked(nodes, path);
    if !r.Found? then CodeOf(r)
    else if !Childless(nodes, r.value) then NotEmptyErr
    else if path == [] then InvalidErr
    else Success
  }

  lemma RemoveAnswer(nodes: Nodes, path: Path)
    requires Shape(nodes)
    ensures !ParentOk(nodes, path) ==> RemoveCode(nodes, path) == NotFoundErr
    ensures var code, r := RemoveCode(nodes, path), Resolve(nodes, path);
            ParentOk(nodes, path) ==>
              && (code == NotFoundErr <==> r == NotFound)
              && (code == NotDirErr <==> r == NotDir)
              && (code == NotEmptyErr <==> r.Found? && HasChild(nodes, r.value))
              && (code == InvalidErr <==> path == [] && !HasChild(nodes, ROOT))
              && (code == Success <==> path != [] && r.Found? && !HasChild(nodes, r.value))
  {
    hide Entries, Unique, NoneDangling, OneName;
    if Resolve(nodes, path).Found? {
      ResolveThere(nodes, path);
      ChildlessExact(nodes, Resolve(nodes, path).value);
    }
  }

  /** Some name leads on from inode x. */
  ghost predicate HasChild(nodes: Nodes, x: Word)
    requires UniqueNames(nodes)
  {
    exists s :: Child(nodes, x, s).Found?
  }

  lemma ChildlessExact(nodes: Nodes, x: Word)
    requires Shape(nodes) && x in nodes
    ensures Childless(nodes, x) <==> !HasChild(nodes, x)
  {
    hide Entries, Unique, NoneDangling, OneName;
    if !Childless(nodes, x) {
      var i: nat :| i < |nodes[x].recs| && IsLive(nodes[x].recs[i]);
      RefChild(nodes, x, i, nodes[x].recs[i].inode);
    }
    if HasChild(nodes, x) {
      var s :| Child(nodes, x, s).Found?;
      var i := ChildRef(nodes, x, s);
    }
  }

  /** What a lookup answers. */
  lemma LookupAnswer(nodes: Nodes, path: Path)
    requires Shape(nodes)
    ensures !ParentOk(nodes, path) ==> CodeOf(Walked(nodes, path)) == NotFoundErr
    ensures var code, r := CodeOf(Walked(nodes, path)), Resolve(nodes, path);
            ParentOk(nodes, path) ==>
              && (code == Success <==> r.Found?)
              && (code == NotFoundErr <==> r == NotFound)
              && (code == NotDirErr <==> r == NotDir)
  {
  }

  /** The entry of the path is gone, and one link of inode x with it. */
  ghost predicate UnlinkDone(n0: Nodes, n1: Nodes, path: Path, d: Word, i: nat, x: Word) {
    && UniqueNames(n0) && UniqueNames(n1) && path != []
    && Resolve(n0, Above(path)) == Found(d) && RefAt(n0, d, i, x) && x in n0 && n0[d].recs[i].text == path[|path| - 1]
    && n1 == Unlinked(n0, d, i)
    && !Resolve(n1, path).Found?
  }

  lemma LinkedGrows(nodes: Nodes, d: Word, r: Rec)
    requires d in nodes && r.inode in nodes && IsLive(r)
    ensures var m := Linked(nodes, d, r);
            Grows(nodes, m) && RefAt(m, d, |nodes[d].recs|, r.inode) && m[d].recs[|nodes[d].recs|].text == r.text
  {
  }

  /** A linked name is found, and every cached path is still right. */
  lemma LinkedReady(nodes: Nodes, cache: map<Path, Word>, src: Path, dst: Path, d: Word, r: Rec)
    requires Shape(nodes) && CacheOk(nodes, cache) && dst != [] && Resolve(nodes, Above(dst)) == Found(d)
    requires d in nodes && nodes[d].isDir && r.inode in nodes && !nodes[r.inode].isDir
             && Resolve(nodes, src) == Found(r.inode)
    requires IsLive(r) && r.text == dst[|dst| - 1] && !Named(nodes[d].recs, r.text)
    ensures var m := Linked(nodes, d, r);
            && Shape(m) && CacheOk(m, cache) && Resolve(m, src) == Found(r.inode) && Resolve(m, dst) == Found(r.inode)
            && (Good(nodes) ==> (Good(m) <==> nodes[r.inode].links < LINKS - 1))
  {
    hide Entries, Unique, CacheOk, Child, Good, Linked, NoneDangling, OneName, Grows, RefAt, Named;
    var m := Linked(nodes, d, r);
    LinkedShape(nodes, d, r);
    LinkedGrows(nodes, d, r);
    CacheGrows(nodes, m, cache);
    PathGrows(nodes, m, src);
    PathGrows(nodes, m, Above(dst));
    RefChild(m, d, |nodes[d].recs|, r.inode);
    if Good(nodes) {
      LinkedGood(nodes, d, r);
    }
  }

  /** An unlinked name is not found any more, and what is left in the cache is right. */
  lemma UnlinkedReady(nodes: Nodes, cache: map<Path, Word>, path: Path, d: Word, i: nat, x: Word)
    requires Shape(nodes) && CacheOk(nodes, cache) && path != [] && Resolve(nodes, Above(path)) == Found(d)
    requires RefAt(nodes, d, i, x) && Childless(nodes, x) && nodes[d].isDir && nodes[d].recs[i].text == path[|path| - 1]
    ensures var m := Unlinked(nodes, d, i);
            && UniqueNames(m) && CacheOk(m, Cut(cache, path)) && UnlinkDone(nodes, m, path, d, i, x)
            && x != ROOT && (Shape(m) <==> NoneDangling(m))
            && (Good(nodes) ==> Shape(m) && Good(m))
  {
    hide Entries, Unique, CacheOk, Child, Tight, Resolve, OneName, Unlinked, Cut;
    var m, name := Unlinked(nodes, d, i), path[|path| - 1];
    UnlinkedShape(nodes, d, i, x);
    Rejoined(path, |path| - 1);
    assert Above(path) + [name] == path;
    CacheCut(nodes, Above(path), d, i, x, name, cache);
    UnlinkedGone(nodes, path, d, i, x);
    if Good(nodes) {
      UnlinkedGood(nodes, d, i, x);
    }
  }

  lemma UnlinkedGone(nodes: Nodes, path: Path, d: Word, i: nat, x: Word)
    requires Shape(nodes) && path != [] && Resolve(nodes, Above(path)) == Found(d)
    requires RefAt(nodes, d, i, x) && Childless(nodes, x) && nodes[d].isDir && nodes[d].recs[i].text == path[|path| - 1]
    ensures UniqueNames(Unlinked(nodes, d, i)) && !Resolve(Unlinked(nodes, d, i), path).Found?
  {
    hide Resolve, NoneDangling, OneName, Entries, Unique;
    var m, up, name := Unlinked(nodes, d, i), Above(path), path[|path| - 1];
    UnlinkedShape(nodes, d, i, x);
    UnlinkedChildren(nodes, d, i, x);
    ResolveWithout(nodes, m, up, d, name, up);
    EraseEntry(nodes[d].recs, i);
    ResolveLast(m, path);
  }

  lemma ResolveLast(nodes: Nodes, path: Path)
    requires UniqueNames(nodes) && path != []
    ensures var parent := Resolve(nodes, Above(path));
            && Resolve(nodes, path) == (if parent.Found? then Child(nodes, parent.value, path[|path| - 1]) else parent)
            && (parent.Found? && parent.value in nodes && !nodes[parent.value].isDir ==> Resolve(nodes, path) == NotDir)
  {
  }

  lemma CreatedGrows(nodes: Nodes, d: Word, r: Rec, isDir: bool, links: nat)
    requires d in nodes && r.inode !in nodes && IsLive(r)
    ensures var m := Created(nodes, d, r, isDir, links);
            Grows(nodes, m) && RefAt(m, d, |nodes[d].recs|, r.inode) && m[d].recs[|nodes[d].recs|].text == r.text
  {
  }

  /** A created entry is found under its path, and every cached path is still right. */
  lemma CreatedReady(nodes: Nodes, cache: map<Path, Word>, path: Path, d: Word, r: Rec, isDir: bool, links: nat)
    requires Shape(nodes) && CacheOk(nodes, cache) && path != [] && Resolve(nodes, path[..|path| - 1]) == Found(d)
    requires d in nodes && nodes[d].isDir && r.inode !in nodes
    requires IsLive(r) && r.text == path[|path| - 1] && !Named(nodes[d].recs, r.text)
    ensures var m := Created(nodes, d, r, isDir, links);
            && Shape(m) && CacheOk(m, cache) && Resolve(m, path) == Found(r.inode)
            && (Good(nodes) && links == 1 ==> Good(m))
  {
    hide Entries, Unique, CacheOk, Child, Good, Created, NoneDangling, OneName, Grows, RefAt, Named;
    var m := Created(nodes, d, r, isDir, links);
    CreatedShape(nodes, d, r, isDir, links);
    CreatedGrows(nodes, d, r, isDir, links);
    CacheGrows(nodes, m, cache);
    PathGrows(nodes, m, path[..|path| - 1]);
    RefChild(m, d, |nodes[d].recs|, r.inode);
    if Good(nodes) && links == 1 {
      CreatedGood(nodes, d, r, isDir);
    }
  }

  lemma CreatedEither(nodes: Nodes, d: Word, r: Rec, isDir: bool, links: nat)
    requires d in nodes && r.inode != d
    ensures WithRecord(nodes, d, r)[r.inode := Node(isDir, links, [])] == Created(nodes, d, r, isDir, links)
  {
  }

  // ---- runs ----

  datatype Op =
    | LookupOp(path: Path)
    | CreateOp(path: Path, isDir: bool, fileType: Byte)
    | LinkOp(src: Path, dst: Path)
    | RemoveOp(path: Path)

  /** No path that the operation looks up has a file as the parent of its last component. */
  ghost predicate Straight(nodes: Nodes, op: Op)
    requires UniqueNames(nodes)
  {
    match op
    case LookupOp(path) => ParentOk(nodes, path)
    case CreateOp(path, _, _) => ParentOk(nodes, Above(path))
    case LinkOp(src, dst) => ParentOk(nodes, src) && ParentOk(nodes, Above(dst))
    case RemoveOp(path) => ParentOk(nodes, path)
  }

  /** The answer of an operation that changes the name space or not, in terms of the name space before. */
  ghost predicate Answered(nodes: Nodes, op: Op, code: Code)
    requires UniqueNames(nodes)
  {
    match op
    case LookupOp(path) => code == CodeOf(Walked(nodes, path))
    case CreateOp(path, _, _) => code == CreateCode(nodes, path)
        || (code == AllocErr && CreateCode(nodes, path) == Success)
    case LinkOp(src, dst) => code == LinkCode(nodes, src, dst)
        || (code == AllocErr && LinkCode(nodes, src, dst) == Success)
    case RemoveOp(path) => code == RemoveCode(nodes, path)
  }

  /** The path leads to an inode whose link count can grow without wrapping. */
  ghost predicate FewNames(nodes: Nodes, path: Path)
    requires UniqueNames(nodes)
  {
    var x := Resolve(nodes, path);
    x.Found? && x.value in nodes && nodes[x.value].links < LINKS - 1
  }

  ghost predicate CreatedSome(n0: Nodes, n1: Nodes, path: Path, fileType: Byte, isDir: bool, links: nat) {
    exists x :: CreateDone(n0, n1, path, x, fileType, isDir, links)
  }

  /**
   * What an operation that succeeds does.  It is sane unless it created an inode in a new group, gave a
   * file its 2^16th name, or took file data for directory records.
   */
  ghost predicate Effect(n0: Nodes, op: Op, sane: bool, n1: Nodes)
    requires UniqueNames(n0)
  {
    match op
    case LookupOp(_) => n1 == n0 && sane
    case CreateOp(path, isDir, fileType) => CreatedSome(n0, n1, path, fileType, isDir, if sane then 1 else 0)
    case LinkOp(src, dst) =>
      && LinkDone(n0, n1, src, dst)
      && sane == FewNames(n0, src)
    case RemoveOp(path) => sane && exists d, i, x :: UnlinkDone(n0, n1, path, d, i, x)
  }

  /** One operation of a run. */
  ghost predicate Stepped(n0: Nodes, op: Op, code: Code, sane: bool, n1: Nodes)
    requires UniqueNames(n0)
  {
    if code == StrayErr then n1 == n0 && !sane && !Straight(n0, op)
    else
      && Answered(n0, op, code)
      && if code == Success then Effect(n0, op, sane, n1) else n1 == n0 && sane
  }

  /** The name spaces of a run of operations, each following from the one before. */
  ghost predicate Follows(trace: seq<Nodes>, ops: seq<Op>, codes: seq<Code>, sane: bool) {
    && |trace| == |codes| + 1 && |codes| <= |ops|
    && (sane ==> |codes| == |ops|)
    && forall i | 0 <= i < |codes| ::
         UniqueNames(trace[i]) && Stepped(trace[i], ops[i], codes[i], sane || i + 1 < |codes|, trace[i + 1])
  }

  /** How many answers report a refused allocation. */
  ghost function Refusals(codes: seq<Code>): nat {
    if codes == [] then 0 else Refusals(codes[..|codes| - 1]) + if codes[|codes| - 1] == AllocErr then 1 else 0
  }

  lemma RefusalsNext(codes: seq<Code>, code: Code)
    ensures Refusals(codes + [code]) == Refusals(codes) + if code == AllocErr then 1 else 0
  {
    assert (codes + [code])[..|codes|] == codes;
  }

  /** What can end a run: file data taken for a record, an inode from a new group, or a link too many. */
  predicate Upset(op: Op, code: Code, grouped: bool) {
    code == StrayErr || (code == Success && (op.LinkOp? || (op.CreateOp? && grouped)))
  }

  lemma RefusalsNone(codes: seq<Code>)
    requires codes == []
    ensures Refusals(codes) == 0
  {
  }

  lemma UpsetMore(op: Op, code: Code, grouped: bool, more: bool)
    requires grouped ==> more
    ensures Upset(op, code, grouped) ==> Upset(op, code, more)
  {
  }

  /** A name that can be created is free, in a directory. */
  lemma FreeName(nodes: Nodes, path: Path)
    requires Shape(nodes) && CreateCode(nodes, path) == Success
    ensures path != [] && Resolve(nodes, Above(path)).Found?
    ensures var d := Resolve(nodes, Above(path)).value;
            d in nodes && nodes[d].isDir && !Named(nodes[d].recs, path[|path| - 1])
  {
    hide Resolve, NoneDangling, OneName, Entries, Unique, ParentOk;
    ResolveThere(nodes, Above(path));
    var d := Resolve(nodes, Above(path)).value;
    MapsEntries(nodes[d].recs, path[|path| - 1], 0);
  }

  lemma RemoveStepGood(n0: Nodes, path: Path, n1: Nodes)
    requires Good(n0) && RemoveCode(n0, path) == Success && exists d, i, x :: UnlinkDone(n0, n1, path, d, i, x)
    ensures Good(n1)
  {
    hide Resolve, ParentOk, UniqueNames, NoneDangling, OneName, Tight, Child;
    var d, i, x :| UnlinkDone(n0, n1, path, d, i, x);
    RefChild(n0, d, i, x);
    ResolveLast(n0, path);
    UnlinkedGood(n0, d, i, x);
  }

  /** A sane step keeps the invariant. */
  lemma StepGood(n0: Nodes, op: Op, code: Code, n1: Nodes)
    requires Good(n0) && Stepped(n0, op, code, true, n1)
    ensures Good(n1)
  {
    hide Resolve, UniqueNames, NoneDangling, OneName, Tight, CreateCode, UnlinkDone, RemoveCode, Good, Named, Created;
    hide Linked;
    assert Good(n0) ==> Shape(n0) by { GoodShape(n0); }
    if code == Success {
      match op
      case LookupOp(_) =>
      case CreateOp(path, isDir, fileType) =>
        var x :| CreateDone(n0, n1, path, x, fileType, isDir, 1);
        FreeName(n0, path);
        CreatedGood(n0, Resolve(n0, Above(path)).value, NewRec(path[|path| - 1], x, fileType), isDir);
      case LinkOp(src, dst) =>
        FreeName(n0, dst);
        LinkedGood(n0, Resolve(n0, Above(dst)).value, NewRec(dst[|dst| - 1], Resolve(n0, src).value, REGULAR));
      case RemoveOp(path) =>
        RemoveStepGood(n0, path, n1);
    }
  }

  lemma GoodShape(nodes: Nodes)
    requires Good(nodes)
    ensures Shape(nodes)
  {
  }

  /** In every name space of a sane run, link counts are the numbers of names, and no record dangles. */
  lemma {:induction false} GoodRun(trace: seq<Nodes>, ops: seq<Op>, codes: seq<Code>, k: nat)
    requires Follows(trace, ops, codes, true) && Good(trace[0]) && k <= |ops|
    ensures Good(trace[k])
  {
    hide Good, Stepped, UniqueNames;
    if k > 0 {
      GoodRun(trace, ops, codes, k - 1);
      StepGood(trace[k - 1], ops[k - 1], codes[k - 1], trace[k]);
    }
  }

  // ---- a copy of an inode that is open ----

  /** The step gave inode x another name. */
  ghost predicate LinksTo(nodes: Nodes, op: Op, code: Code, x: Word)
    requires UniqueNames(nodes)
  {
    op.LinkOp? && code == Success && Resolve(nodes, op.src) == Found(x)
  }

  /** The step took a name of inode x away. */
  ghost predicate TakesFrom(nodes: Nodes, op: Op, code: Code, x: Word)
    requires UniqueNames(nodes)
  {
    op.RemoveOp? && code == Success && Resolve(nodes, op.path) == Found(x)
  }

  lemma LinkCount(nodes: Nodes, x: Word)
    requires Good(nodes) && x in nodes && x != ROOT
    ensures 1 <= nodes[x].links < LINKS
  {
  }

  /** While inode x is there, a step changes its link count only by linking to it or by taking one of its names. */
  lemma StepLinks(n0: Nodes, op: Op, code: Code, n1: Nodes, x: Word)
    requires Good(n0) && Stepped(n0, op, code, true, n1) && x in n0 && x != ROOT
    ensures !TakesFrom(n0, op, code, x) ==> x in n1
    ensures x in n1 ==> n1[x].links == n0[x].links + (if LinksTo(n0, op, code, x) then 1 else 0)
                                     - (if TakesFrom(n0, op, code, x) then 1 else 0)
  {
    hide Resolve, UniqueNames, NoneDangling, OneName, Tight, CreateCode, LinkCode, RemoveCode, Walked, Child, Refs;
    if code == Success {
      match op
      case LookupOp(_) =>
      case CreateOp(path, isDir, fileType) =>
        var y :| CreateDone(n0, n1, path, y, fileType, isDir, 1);
      case LinkOp(src, dst) =>
        assert LinkDone(n0, n1, src, dst);
      case RemoveOp(path) =>
        var d, i, y :| UnlinkDone(n0, n1, path, d, i, y);
        RefChild(n0, d, i, y);
        ResolveLast(n0, path);
        LinkCount(n0, x);
    }
  }

  /** Writing a link count back into the inode table keeps the invariant exactly when it is the current one. */
  lemma CommitExact(nodes: Nodes, x: Word, links: nat)
    requires Good(nodes) && x in nodes && x != ROOT
    ensures Good(WithLinks(nodes, x, links)) <==> links == nodes[x].links
  {
    hide Shape, Tight, Refs;
    var m := WithLinks(nodes, x, links);
    if links == nodes[x].links {
      assert m == nodes;
    } else {
      assert SameRefs(nodes, m);
      SameRefSets(nodes, m, x);
    }
  }

  lemma SameRefSets(nodes: Nodes, m: Nodes, y: Word)
    requires SameRefs(nodes, m)
    ensures Refs(m, y) == Refs(nodes, y)
  {
  }

  /** How many of the steps from i up to j give inode x another name. */
  ghost function LinksMade(trace: seq<Nodes>, ops: seq<Op>, codes: seq<Code>, i: nat, j: nat, x: Word): nat
    requires Follows(trace, ops, codes, true) && i <= j <= |ops|
    decreases j
  {
    if i == j then 0
    else
      LinksMade(trace, ops, codes, i, j - 1, x)
      + if LinksTo(trace[j - 1], ops[j - 1], codes[j - 1], x) then 1 else 0
  }

  /** How many of them take a name of inode x away. */
  ghost function NamesTaken(trace: seq<Nodes>, ops: seq<Op>, codes: seq<Code>, i: nat, j: nat, x: Word): nat
    requires Follows(trace, ops, codes, true) && i <= j <= |ops|
    decreases j
  {
    if i == j then 0
    else
      NamesTaken(trace, ops, codes, i, j - 1, x)
      + if TakesFrom(trace[j - 1], ops[j - 1], codes[j - 1], x) then 1 else 0
  }

  /**
   * An inode is opened at step i and its copy written back at step j, and it exists all the while.  The
   * write keeps the invariant exactly when as many links to it were made as names of it were taken.
   */
  lemma OpenClose(trace: seq<Nodes>, ops: seq<Op>, codes: seq<Code>, i: nat, j: nat, x: Word)
    requires Follows(trace, ops, codes, true) && Good(trace[0]) && i <= j <= |ops| && x != ROOT
    requires forall k | i <= k <= j :: x in trace[k]
    ensures Good(WithLinks(trace[j], x, trace[i][x].links)) <==>
              LinksMade(trace, ops, codes, i, j, x) == NamesTaken(trace, ops, codes, i, j, x)
  {
    hide Good, Stepped, UniqueNames, LinksMade, NamesTaken;
    OpenLinks(trace, ops, codes, i, j, x);
    GoodRun(trace, ops, codes, j);
    CommitExact(trace[j], x, trace[i][x].links);
  }

  lemma {:induction false} OpenLinks(trace: seq<Nodes>, ops: seq<Op>, codes: seq<Code>, i: nat, j: nat, x: Word)
    requires Follows(trace, ops, codes, true) && Good(trace[0]) && i <= j <= |ops| && x != ROOT
    requires forall k | i <= k <= j :: x in trace[k]
    ensures trace[j][x].links == trace[i][x].links + LinksMade(trace, ops, codes, i, j, x)
                                 - NamesTaken(trace, ops, codes, i, j, x)
    decreases j
  {
    hide Good, Stepped, LinksTo, TakesFrom, UniqueNames;
    if i < j {
      OpenLinks(trace, ops, codes, i, j - 1, x);
      GoodRun(trace, ops, codes, j - 1);
      StepLinks(trace[j - 1], ops[j - 1], codes[j - 1], trace[j], x);
    }
  }

  /** An inode none of whose names are taken, as `fuse_unlink` sees to, exists all the while; then any link is lost. */
  lemma {:induction false} OpenKept(trace: seq<Nodes>, ops: seq<Op>, codes: seq<Code>, i: nat, j: nat, x: Word)
    requires Follows(trace, ops, codes, true) && Good(trace[0]) && i <= j <= |ops| && x in trace[i] && x != ROOT
    requires forall k | i <= k < j :: !TakesFrom(trace[k], ops[k], codes[k], x)
    ensures forall k | i <= k <= j :: x in trace[k]
    ensures NamesTaken(trace, ops, codes, i, j, x) == 0
    ensures LinksMade(trace, ops, codes, i, j, x) == 0 <==>
              forall k | i <= k < j :: !LinksTo(trace[k], ops[k], codes[k], x)
    decreases j
  {
    hide Good, Stepped, LinksTo, TakesFrom, UniqueNames;
    if i < j {
      OpenKept(trace, ops, codes, i, j - 1, x);
      GoodRun(trace, ops, codes, j - 1);
      StepLinks(trace[j - 1], ops[j - 1], codes[j - 1], trace[j], x);
    }
  }

  /** Open, link, close: the link is lost, and unlinking one of the two names frees the inode. */
  lemma CommitLosesLink()
    ensures var before := Named1([NewRec([97], 1, REGULAR)]);
            var linked := Linked(before, ROOT, NewRec([98], 1, REGULAR));
            var closed := WithLinks(linked, 1, before[1].links);
            1 !in Unlinked(closed, ROOT, 0) && RefAt(Unlinked(closed, ROOT, 0), ROOT, 1, 1)
  {
  }
}
