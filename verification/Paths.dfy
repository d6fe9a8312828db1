/**
 * What the operations do to the name space as its users see it: which inode every path leads to.
 */
module Paths {
  import opened Bytes
  import opened DentryBlocks
  import opened Names

  /** Every child but the one called name in directory d is as it was, or missing as it was. */
  ghost predicate OtherChildren(n0: Nodes, n1: Nodes, d: Word, name: seq<Byte>)
    requires UniqueNames(n0) && UniqueNames(n1)
  {
    forall e, s: seq<Byte> | e in n0 && e in n1 && (e != d || s != name) :: Child(n1, e, s) == Child(n0, e, s)
  }

  /** A path that does not go through the changed entry leads where it did, or fails as it did. */
  lemma {:induction false} Elsewhere(n0: Nodes, n1: Nodes, path: Path, d: Word, p: Path)
    requires Shape(n0) && Shape(n1) && path != [] && OtherChildren(n0, n1, d, path[|path| - 1])
    requires Resolve(n0, Above(path)) == Found(d) && d in n0 && n0[d].isDir && !(path <= p)
    ensures Resolve(n1, p) == Resolve(n0, p)
    decreases |p|
  {
    hide UniqueNames, NoneDangling, OneName, Child;
    if p != [] {
      var p', s := p[..|p| - 1], p[|p| - 1];
      Elsewhere(n0, n1, path, d, p');
      if Resolve(n0, p').Found? {
        var e := Resolve(n0, p').value;
        ResolveThere(n0, p');
        ResolveThere(n1, p');
        if e == d && s == path[|path| - 1] {
          DirectoryPath(n0, p', Above(path), d);
          Rejoined(p, |p| - 1);
          Rejoined(path, |path| - 1);
        }
      }
    }
  }

  lemma GrownOthers(n0: Nodes, n1: Nodes, d: Word, r: Rec)
    requires Shape(n0) && UniqueNames(n1) && IsLive(r) && d in n0 && !Named(n0[d].recs, r.text)
    requires forall e | e in n0 :: e in n1 && n1[e].isDir == n0[e].isDir
                                   && n1[e].recs == if e == d then n0[e].recs + [r] else n0[e].recs
    ensures OtherChildren(n0, n1, d, r.text)
  {
    hide Entries, Unique, Named;
    AddEntry(n0[d].recs, r);
  }

  lemma UnlinkedOthers(n0: Nodes, d: Word, i: nat, x: Word)
    requires Shape(n0) && RefAt(n0, d, i, x) && Childless(n0, x)
    ensures UniqueNames(Unlinked(n0, d, i)) && OtherChildren(n0, Unlinked(n0, d, i), d, n0[d].recs[i].text)
    ensures n0[d].isDir && d in Unlinked(n0, d, i) && Unlinked(n0, d, i)[d].isDir
  {
    hide Entries, Unique;
    UnlinkedShape(n0, d, i, x);
    EraseEntry(n0[d].recs, i);
  }

  /** Below a file there are no directories, and below an empty directory there is nothing. */
  lemma BelowEmpty(nodes: Nodes, path: Path, p: Path)
    requires UniqueNames(nodes) && path < p && Resolve(nodes, path).Found?
    requires var x := Resolve(nodes, path).value; x in nodes && nodes[x].recs == []
    ensures Resolve(nodes, p) == if nodes[Resolve(nodes, path).value].isDir then NotFound else NotDir
  {
    var n := |path|;
    var q := p[..n + 1];
    assert q[..n] == path;
    ResolveStuck(nodes, p, n + 1);
  }

  /** The outcome is an inode that was free and is now empty, with one link. */
  predicate NewAt(n0: Nodes, n1: Nodes, r: Outcome, isDir: bool) {
    r.Found? && r.value !in n0 && r.value in n1 && n1[r.value] == Node(isDir, 1, [])
  }

  lemma CreatedPaths(n0: Nodes, path: Path, x: Word, fileType: Byte, isDir: bool, n1: Nodes, p: Path)
    requires Shape(n0) && CreateCode(n0, path) == Success && CreateDone(n0, n1, path, x, fileType, isDir, 1)
    ensures Resolve(n1, path) == Found(x) && NewAt(n0, n1, Found(x), isDir)
    ensures p != path ==> Resolve(n1, p) == if path <= p && !isDir then NotDir else Resolve(n0, p)
  {
    hide Resolve, NoneDangling, OneName, Entries, Unique, ParentOk, Named, Child, CreateCode;
    var d, r := Resolve(n0, Above(path)).value, NewRec(path[|path| - 1], x, fileType);
    FreeName(n0, path);
    CreatedShape(n0, d, r, isDir, 1);
    GrownOthers(n0, n1, d, r);
    if !(path <= p) {
      Elsewhere(n0, n1, path, d, p);
    } else if p != path {
      BelowEmpty(n1, path, p);
      CreateAnswer(n0, path);
      assert p[..|path|] == path;
      ResolveStuck(n0, p, |path|);
    }
  }

  lemma LinkedPaths(n0: Nodes, src: Path, dst: Path, n1: Nodes, p: Path)
    requires Shape(n0) && LinkCode(n0, src, dst) == Success && LinkDone(n0, n1, src, dst)
    ensures Resolve(n1, p) == if p == dst then Resolve(n0, src) else if dst <= p then NotDir else Resolve(n0, p)
  {
    hide Resolve, NoneDangling, OneName, Entries, Unique, ParentOk, Named, Child, CreateCode;
    var d, x := Resolve(n0, Above(dst)).value, Resolve(n0, src).value;
    var r := NewRec(dst[|dst| - 1], x, REGULAR);
    FreeName(n0, dst);
    LinkedShape(n0, d, r);
    GrownOthers(n0, n1, d, r);
    if !(dst <= p) {
      Elsewhere(n0, n1, dst, d, p);
    } else if p != dst {
      BelowEmpty(n1, dst, p);
    }
  }

  lemma ChildOfDir(nodes: Nodes, d: Word, name: Name)
    requires UniqueNames(nodes) && d in nodes && nodes[d].isDir
    ensures Child(nodes, d, name) != NotDir
  {
  }

  lemma RemovedPaths(n0: Nodes, path: Path, n1: Nodes, p: Path)
    requires Good(n0) && Shape(n0) && RemoveCode(n0, path) == Success
    requires exists d, i, x :: UnlinkDone(n0, n1, path, d, i, x)
    ensures UniqueNames(n1) && Resolve(n1, p) == if path <= p then NotFound else Resolve(n0, p)
  {
    hide Resolve, NoneDangling, OneName, Entries, Unique, ParentOk, Named, Good, Unlinked, Child;
    var d, i, x :| UnlinkDone(n0, n1, path, d, i, x);
    RefChild(n0, d, i, x);
    ResolveLast(n0, path);
    UnlinkedOthers(n0, d, i, x);
    RemoveStepGood(n0, path, n1);
    GoodShape(n1);
    if path <= p {
      Elsewhere(n0, n1, path, d, Above(path));
      ResolveLast(n1, path);
      ChildOfDir(n1, d, path[|path| - 1]);
      assert p[..|path|] == path;
      ResolveStuck(n1, p, |path|);
    } else {
      Elsewhere(n0, n1, path, d, p);
    }
  }

  /** What path p leads to after a successful operation, in terms of what paths led to before. */
  ghost predicate LeadsOn(n0: Nodes, op: Op, n1: Nodes, p: Path)
    requires UniqueNames(n0) && UniqueNames(n1)
  {
    var was, now := Resolve(n0, p), Resolve(n1, p);
    match op
    case LookupOp(_) => now == was
    case CreateOp(path, isDir, _) =>
      if p == path then NewAt(n0, n1, now, isDir) else if path <= p && !isDir then now == NotDir else now == was
    case LinkOp(src, dst) =>
      if p == dst then now == Resolve(n0, src) else if dst <= p then now == NotDir else now == was
    case RemoveOp(path) =>
      if path <= p then now == NotFound else now == was
  }

  /**
   * What a sane step does to every path.  A created path leads to a new inode, of the kind asked for and
   * without entries; a linked one leads where its source leads; a removed one leads nowhere.  Every path
   * that does not go through that name leads where it did, or fails as it did.
   */
  lemma StepPaths(n0: Nodes, op: Op, code: Code, n1: Nodes, p: Path)
    requires Good(n0) && Stepped(n0, op, code, true, n1)
    ensures Shape(n0) && Shape(n1)
    ensures if code == Success then LeadsOn(n0, op, n1, p) else Resolve(n1, p) == Resolve(n0, p)
  {
    hide Resolve, UniqueNames, NoneDangling, OneName, Tight, CreateCode, LinkCode, UnlinkDone, RemoveCode, Good;
    hide CreateDone, LinkDone;
    StepGood(n0, op, code, n1);
    GoodShape(n0);
    GoodShape(n1);
    if code == Success {
      match op
      case LookupOp(_) =>
      case CreateOp(path, isDir, fileType) =>
        var x :| CreateDone(n0, n1, path, x, fileType, isDir, 1);
        CreatedPaths(n0, path, x, fileType, isDir, n1, p);
      case LinkOp(src, dst) =>
        LinkedPaths(n0, src, dst, n1, p);
      case RemoveOp(path) =>
        RemovedPaths(n0, path, n1, p);
    }
  }

  /** The step makes or removes a name that the path goes through. */
  predicate Touches(op: Op, code: Code, p: Path) {
    code == Success &&
    match op
    case LookupOp(_) => false
    case CreateOp(path, _, _) => path <= p
    case LinkOp(_, dst) => dst <= p
    case RemoveOp(path) => path <= p
  }

  /** Over a sane run, a path leads where it did unless some step made or removed a name on it. */
  lemma {:induction false} PathKept(trace: seq<Nodes>, ops: seq<Op>, codes: seq<Code>, i: nat, j: nat, p: Path)
    requires Follows(trace, ops, codes, true) && Good(trace[0]) && i <= j <= |ops|
    requires forall k | i <= k < j :: !Touches(ops[k], codes[k], p)
    ensures UniqueNames(trace[i]) && UniqueNames(trace[j]) && Resolve(trace[j], p) == Resolve(trace[i], p)
    decreases j
  {
    hide Good, Stepped, UniqueNames, Resolve, Shape;
    GoodRun(trace, ops, codes, i);
    GoodUnique(trace[i]);
    if i < j {
      PathKept(trace, ops, codes, i, j - 1, p);
      GoodRun(trace, ops, codes, j - 1);
      StepPaths(trace[j - 1], ops[j - 1], codes[j - 1], trace[j], p);
      GoodRun(trace, ops, codes, j);
      GoodUnique(trace[j]);
    }
  }

  lemma GoodUnique(nodes: Nodes)
    requires Good(nodes)
    ensures UniqueNames(nodes)
  {
  }
}
