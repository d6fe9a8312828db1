/**
 * The directory entry cache of `src/cache.cpp`: the cached children of a node form a circular singly
 * linked list, entered at the child that was used last, and each child has children of its own.
 */
module DentryCaches {
  import opened Bytes
  import opened DentryBlocks
  import opened Names
  import opened Rings
  import opened PathCaches

  class Node {
    var inode: Word
    const name: Name
    var childs: Node?
    var next: Node?
    /** The path the node is cached for. */
    ghost const at: Path
    /** The children in list order, starting at `childs`. */
    ghost var ring: seq<Node>

    constructor (name: Name, inode: Word, ghost at: Path)
      ensures this.name == name && this.inode == inode && this.at == at
      ensures childs == null && next == null && ring == []
    {
      this.name := name;
      this.inode := inode;
      this.at := at;
      childs := null;
      next := null;
      ring := [];
    }

    /** The children form one closed cycle with distinct names. */
    ghost predicate Closed()
      reads this`childs, this`ring, ring`next
    {
      && (childs == null <==> ring == [])
      && (ring != [] ==> childs == ring[0] && ring[|ring| - 1].next == ring[0])
      && (forall i {:trigger ring[i].next} | 0 <= i < |ring| - 1 :: ring[i].next == ring[i + 1])
      && (forall i, j | 0 <= i < j < |ring| :: ring[i] != ring[j] && ring[i].name != ring[j].name)
      && (forall c | c in ring :: c.at == at + [c.name])
      && this !in ring
    }

    /** `insert`: the new child follows the entry point and becomes the entry point. */
    method Insert(name: Name, inode: Word) returns (node: Node)
      requires Closed() && forall c | c in ring :: c.name != name
      modifies this`childs, this`ring, ring`next
      ensures Closed() && fresh(node) && node.Closed() && node.ring == []
      ensures node.name == name && node.inode == inode && node.at == at + [name]
      ensures ring == Entered(old(ring), node)
    {
      node := new Node(name, inode, at + [name]);
      if childs == null {
        node.next := node;
        childs := node;
        ring := [node];
      } else {
        node.next := childs.next;
        childs.next := node;
        childs := node;
        ring := [node] + ring[1..] + [ring[0]];
      }
    }

    /** The name belongs to the child at position i, or to none when i is past the end. */
    ghost predicate At(name: seq<Byte>, i: nat)
      reads this`ring
    {
      if i < |ring| then ring[i].name == name else forall c | c in ring :: c.name != name
    }

    /** The child at position p becomes the entry point. */
    method Enter(node: Node, ghost p: nat)
      requires Closed() && p < |ring| && ring[p] == node
      modifies this`childs, this`ring
      ensures Closed() && ring == Rotated(old(ring), p)
    {
      ghost var was, n := ring, |ring|;
      childs := node;
      ring := Rotated(ring, p);
      RotatedMembers(was, p);
      forall k | 0 <= k < n ensures ring[k] == was[if k < n - p then k + p else k + p - n] {
      }
      forall k {:trigger ring[k].next} | 0 <= k < n - 1 ensures ring[k].next == ring[k + 1] {
        assert was[if k < n - p then k + p else k + p - n].next == ring[k + 1];
      }
    }

    /** `lookup`: finds the child of that name and makes it the entry point. */
    method Lookup(name: seq<Byte>, ghost i: nat) returns (node: Node?)
      requires Closed() && At(name, i)
      modifies this`childs, this`ring
      ensures Closed()
      ensures node == if i < |old(ring)| then old(ring)[i] else null
      ensures ring == if i < |old(ring)| then Rotated(old(ring), i) else old(ring)
    {
      if name == [] || childs == null {
        return null;
      }
      var ptr := childs;
      ghost var p := 0;
      while true
        invariant 0 <= p < |ring| && ptr == ring[p] && ring == old(ring) && childs == old(childs)
        invariant i < |ring| ==> p <= i
        decreases |ring| - p
      {
        if ptr.name == name {
          Enter(ptr, p);
          return ptr;
        }
        ptr := ptr.next;
        if ptr == childs {
          return null;
        }
        p := p + 1;
      }
    }

    /**
     * `remove` up to the release: the search starts behind the entry point with `prev` on the first
     * node examined.  The remaining children form a closed cycle exactly when the node removed is not
     * that first one, or is the only child; otherwise the entry point still leads to the removed node.
     */
    method Remove(name: seq<Byte>, ghost i: nat) returns (node: Node?)
      requires Closed() && At(name, i)
      modifies this`childs, this`ring, ring`next
      ensures node == if i < |old(ring)| then old(ring)[i] else null
      ensures node == null ==> Closed() && ring == old(ring)
      ensures node != null ==> ring == Taken(old(ring), i)
      ensures node != null ==> (Closed() <==> CanTake(|old(ring)|, i))
      ensures node != null && !Closed() ==> old(ring)[0] in ring && old(ring)[0].next == node
    {
      if childs == null { return null; }
      var ptr := childs.next;
      var prev := ptr;
      ghost var n, p := |ring|, 1;
      while true
        invariant 1 <= p <= n == |ring| && ring == old(ring) && childs == old(childs) && Closed()
        invariant ptr == ring[if p == n then 0 else p]
        invariant prev == if p == 1 then ptr else ring[p - 1]
        invariant i < n ==> p <= (if i == 0 then n else i)
        decreases n - p
      {
        if ptr.name == name {
          assert i == if p == n then 0 else p;
          Unhook(ptr, prev, i);
          return ptr;
        }
        prev := ptr;
        ptr := ptr.next;
        if ptr == childs.next { return null; }
        p := p + 1;
      }
    }

    /** The pointer updates of `remove` once the node is found. */
    method Unhook(ptr: Node, prev: Node, ghost i: nat)
      requires Closed() && i < |ring| && ptr == ring[i]
      requires prev == if i == 1 || |ring| == 1 then ptr else ring[if i == 0 then |ring| - 1 else i - 1]
      modifies this`childs, this`ring, ring`next
      ensures ring == Taken(old(ring), i)
      ensures Closed() <==> CanTake(|old(ring)|, i)
      ensures !Closed() ==> old(ring)[0] in ring && old(ring)[0].next == ptr
    {
      hide Taken;
      ghost var r := ring;
      childs := if ptr == ptr.next then null else ptr.next;
      prev.next := ptr.next;
      ring := Taken(ring, i);
      TakenAt(r, i);
      if |r| > 1 {
        if i == 1 {
          assert ring[|ring| - 1] == r[0] && r[0].next == ptr != ring[0];
        } else {
          assert ring[|ring| - 1] == prev && prev.next == ring[0];
        }
      }
    }

    /**
     * A lookup of the name right before the removal makes it safe: exactly that child goes, the others
     * stay in cyclic order.
     */
    method LookupAndRemove(name: seq<Byte>, ghost i: nat) returns (gone: Node?)
      requires Closed() && At(name, i)
      modifies this`childs, this`ring, ring`next
      ensures Closed()
      ensures gone == if i < |old(ring)| then old(ring)[i] else null
      ensures ring == if i < |old(ring)| then Taken(old(ring), i) else old(ring)
    {
      hide Node.Closed;
      var node := Lookup(name, i);
      if node == null {
        gone := Remove(name, i);
      } else {
        assert ring[1..] + ring[..0] == old(ring)[i + 1..] + old(ring)[..i];
        gone := Remove(name, 0);
      }
    }
  }

  /** The names of the children in ring order. */
  ghost function NamesOf(ring: seq<Node>): (names: seq<Name>)
    ensures |names| == |ring| && forall i | 0 <= i < |ring| :: names[i] == ring[i].name
  {
    seq(|ring|, i requires 0 <= i < |ring| => ring[i].name)
  }

  lemma DistinctNames(node: Node)
    requires node.Closed()
    ensures Distinct<Name>(NamesOf(node.ring))
  {
  }

  lemma NamesEntered(ring: seq<Node>, node: Node)
    ensures NamesOf(Entered(ring, node)) == Entered(NamesOf(ring), node.name)
  {
  }

  lemma NamesRotated(ring: seq<Node>, i: nat)
    requires i <= |ring|
    ensures NamesOf(Rotated(ring, i)) == Rotated(NamesOf(ring), i)
  {
  }

  lemma NamesTaken(ring: seq<Node>, i: nat)
    requires i < |ring|
    ensures NamesOf(Taken(ring, i)) == Taken(NamesOf(ring), i)
  {
  }

  /** The ring holds nodes of the tree, each cached for a path right below q. */
  ghost predicate RingIn(t: map<Path, Node>, q: Path, ring: seq<Node>) {
    Distinct(ring) && forall c | c in ring :: c.at == q + [c.name] && c.at in t && t[c.at] == c
  }

  ghost predicate RingThere(t: map<Path, Node>, rings: map<Path, seq<Node>>, q: Path) {
    q in rings && RingIn(t, q, rings[q])
  }

  /** The node of q is in the ring of its parent. */
  ghost predicate Hung(t: map<Path, Node>, rings: map<Path, seq<Node>>, q: Path) {
    q != [] && q in t && Above(q) in t && Above(q) in rings && t[q] in rings[Above(q)]
  }

  /** Every node is cached for the path that leads to it, so distinct paths have distinct nodes. */
  ghost predicate Placed(t: map<Path, Node>) {
    forall q | q in t :: t[q].at == q
  }

  /** The nodes form a tree: from the root the rings lead to all of them and to no others. */
  ghost predicate Whole(t: map<Path, Node>, rings: map<Path, seq<Node>>) {
    && Placed(t) && [] in t
    && (forall q | q in t :: RingThere(t, rings, q))
    && (forall q | q in t && q != [] :: Hung(t, rings, q))
  }

  /** The same of the nodes at p and below. */
  ghost predicate Branch(t: map<Path, Node>, rings: map<Path, seq<Node>>, p: Path) {
    && Placed(t) && p in t
    && (forall q | q in t && p <= q :: RingThere(t, rings, q))
    && (forall q | q in t && p < q :: Hung(t, rings, q))
  }

  /** The nodes cached for a path and all below it. */
  ghost function Subtree(t: map<Path, Node>, p: Path): set<Node> {
    set q | q in t && p <= q :: t[q]
  }

  ghost function PathsBelow(t: map<Path, Node>, p: Path): set<Path> {
    set q | q in t && p < q
  }

  ghost function NodesBelow(t: map<Path, Node>, p: Path): set<Node> {
    set q | q in t && p < q :: t[q]
  }

  /** A child is cached exactly when the ring of its parent has its name, and it is the node there. */
  lemma NameCached(t: map<Path, Node>, rings: map<Path, seq<Node>>, up: Path, name: Name)
    requires Whole(t, rings) && up in t
    ensures RingThere(t, rings, up)
    ensures var i, path := IndexOf(NamesOf(rings[up]), name), up + [name];
            (i < |rings[up]| <==> path in t) && (path in t ==> rings[up][i] == t[path] && t[path].at == path)
  {
    assert RingThere(t, rings, up);
    var ring, path := rings[up], up + [name];
    var i := IndexOf(NamesOf(ring), name);
    if i < |ring| {
      assert ring[i] in ring;
    }
    if path in t {
      assert Hung(t, rings, path) && Above(path) == up;
      var k :| 0 <= k < |ring| && ring[k] == t[path];
      LastApart(up, ring[k].name, up, name);
      assert NamesOf(ring)[k] == name;
    }
  }

  lemma {:induction false} ChildAbove(t: map<Path, Node>, rings: map<Path, seq<Node>>, p: Path, q: Path)
    requires Branch(t, rings, p) && q in t && p < q
    ensures p in rings
    ensures var c := q[..|p| + 1]; c in t && t[c] in rings[p]
    decreases |q|
  {
    assert Hung(t, rings, q);
    if |q| == |p| + 1 {
      assert Above(q) == p && q[..|p| + 1] == q;
    } else {
      assert Above(q)[..|p| + 1] == q[..|p| + 1];
      ChildAbove(t, rings, p, Above(q));
    }
  }

  lemma FewerBelow(t: map<Path, Node>, p: Path, q: Path)
    requires q in t && p < q
    ensures PathsBelow(t, q) < PathsBelow(t, p)
  {
    assert q in PathsBelow(t, p) && q !in PathsBelow(t, q);
  }

  lemma SubtreeTop(t: map<Path, Node>, p: Path)
    requires Placed(t) && p in t
    ensures Subtree(t, p) == NodesBelow(t, p) + {t[p]} && t[p] !in NodesBelow(t, p)
  {
    assert forall q | q in t :: p <= q <==> p < q || p == q;
  }

  /** One of the first k children of a ring lies on the path. */
  ghost predicate Through(ring: seq<Node>, k: nat, q: Path)
    requires k <= |ring|
  {
    exists j | 0 <= j < k :: ring[j].at <= q
  }

  /** The subtrees of the first k children of a ring. */
  ghost function Cleared(t: map<Path, Node>, ring: seq<Node>, k: nat): set<Node>
    requires k <= |ring|
  {
    set q | q in t && Through(ring, k, q) :: t[q]
  }

  lemma ClearedNext(t: map<Path, Node>, p: Path, ring: seq<Node>, k: nat)
    requires Placed(t) && RingIn(t, p, ring) && k < |ring|
    ensures Cleared(t, ring, k + 1) == Cleared(t, ring, k) + Subtree(t, ring[k].at)
    ensures Cleared(t, ring, k) !! Subtree(t, ring[k].at) && Subtree(t, ring[k].at) <= NodesBelow(t, p)
  {
    var c := ring[k].at;
    assert ring[k] in ring;
    forall q | q in t ensures Through(ring, k + 1, q) <==> Through(ring, k, q) || c <= q {}
    forall q | q in t && c <= q ensures p < q && !Through(ring, k, q) {
      forall j | 0 <= j < k ensures !(ring[j].at <= q) {
        assert ring[j] in ring && t[ring[j].at] != t[c];
        if ring[j].at <= q {
          SamePrefix(ring[j].at, c, q);
        }
      }
    }
  }

  lemma SamePrefix(a: Path, b: Path, q: Path)
    requires a <= q && b <= q && |a| == |b|
    ensures a == b
  {
    assert a == q[..|a|] && b == q[..|b|];
  }

  lemma ClearedAll(t: map<Path, Node>, rings: map<Path, seq<Node>>, p: Path)
    requires Branch(t, rings, p)
    ensures Placed(t) && RingThere(t, rings, p)
    ensures Cleared(t, rings[p], 0) == {} && Cleared(t, rings[p], |rings[p]|) == NodesBelow(t, p)
  {
    assert p <= p && RingThere(t, rings, p);
    var ring := rings[p];
    forall q | q in t ensures Through(ring, |ring|, q) <==> p < q {
      if Through(ring, |ring|, q) {
        var j :| 0 <= j < |ring| && ring[j].at <= q;
        assert ring[j] in ring;
      }
      if p < q {
        ChildAbove(t, rings, p, q);
        var j :| 0 <= j < |ring| && ring[j] == t[q[..|p| + 1]];
        assert ring[j].at <= q;
      }
    }
  }

  lemma RotatedIn(t: map<Path, Node>, q: Path, ring: seq<Node>, i: nat)
    requires RingIn(t, q, ring) && i < |ring|
    ensures RingIn(t, q, Rotated(ring, i))
    ensures forall c | c in ring :: c in Rotated(ring, i)
  {
    hide Rotated;
    RotatedMembers(ring, i);
  }

  lemma EnteredIn(t: map<Path, Node>, q: Path, ring: seq<Node>, node: Node)
    requires RingIn(t, q, ring) && node.at == q + [node.name] && node.at !in t
    ensures RingIn(t[node.at := node], q, Entered(ring, node)) && RingIn(t[node.at := node], node.at, [])
    ensures node in Entered(ring, node) && forall c | c in ring :: c in Entered(ring, node)
  {
    hide Entered;
    EnteredMembers(ring, node);
  }

  lemma GrownIn(t: map<Path, Node>, q: Path, ring: seq<Node>, node: Node)
    requires RingIn(t, q, ring) && node.at !in t
    ensures RingIn(t[node.at := node], q, ring)
  {
  }

  lemma TakenIn(t: map<Path, Node>, path: Path, q: Path, ring: seq<Node>, i: nat)
    requires RingIn(t, q, ring) && i < |ring| && ring[i].at == path
    ensures RingIn(Cut(t, path), q, Taken(ring, i))
    ensures forall c | c in ring && c.at != path :: c in Taken(ring, i)
  {
    hide Taken;
    TakenMembers(ring, i);
    assert ring[i] in ring;
    forall c: Node | c in Taken(ring, i) ensures !(path <= c.at) {
      assert t[c.at] != t[path] && |c.at| == |path|;
      if path <= c.at {
        SamePrefix(path, c.at, c.at);
      }
    }
  }

  lemma CutIn(t: map<Path, Node>, path: Path, q: Path, ring: seq<Node>)
    requires RingIn(t, q, ring) && !(path <= q) && path != [] && q != Above(path)
    ensures RingIn(Cut(t, path), q, ring)
  {
    forall c | c in ring ensures !(path <= c.at) {
      Below(path, q, c.name);
      assert (q + [c.name])[..|q|] == q;
    }
  }

  /** Where a new child enters the ring of its parent, the tree grows by that child. */
  lemma EnteredWhole(t: map<Path, Node>, rings: map<Path, seq<Node>>, up: Path, node: Node)
    requires Whole(t, rings) && up in t && node.at == up + [node.name] && node.at !in t
    ensures RingThere(t, rings, up)
    ensures Whole(t[node.at := node], rings[up := Entered(rings[up], node)][node.at := []])
  {
    hide Entered, RingIn;
    assert RingThere(t, rings, up);
    var t', r' := t[node.at := node], rings[up := Entered(rings[up], node)][node.at := []];
    EnteredIn(t, up, rings[up], node);
    forall q | q in t' ensures RingThere(t', r', q) {
      if q in t {
        assert RingThere(t, rings, q);
        GrownIn(t, q, rings[q], node);
      }
    }
    assert Above(node.at) == up;
    forall q | q in t' && q != [] ensures Hung(t', r', q) {
      assert q in t ==> Hung(t, rings, q);
    }
  }

  lemma RotatedWhole(t: map<Path, Node>, rings: map<Path, seq<Node>>, up: Path, i: nat)
    requires Whole(t, rings) && up in t && up in rings && i < |rings[up]|
    ensures Whole(t, rings[up := Rotated(rings[up], i)])
  {
    hide Rotated;
    assert RingThere(t, rings, up);
    var r' := rings[up := Rotated(rings[up], i)];
    RotatedIn(t, up, rings[up], i);
    forall q | q in t ensures RingThere(t, r', q) {
      assert RingThere(t, rings, q);
    }
    forall q | q in t && q != [] ensures Hung(t, r', q) {
      assert Hung(t, rings, q);
    }
  }

  /** Where a child is taken out of the ring of its parent, the tree loses that child and all below. */
  lemma TakenWhole(t: map<Path, Node>, rings: map<Path, seq<Node>>, up: Path, name: Name, i: nat)
    requires Whole(t, rings) && up in t && up in rings && i < |rings[up]|
    requires up + [name] in t && rings[up][i] == t[up + [name]]
    ensures Whole(Cut(t, up + [name]), Cut(rings, up + [name])[up := Taken(rings[up], i)])
  {
    hide Taken, RingIn;
    var path := up + [name];
    var t', r' := Cut(t, path), Cut(rings, path)[up := Taken(rings[up], i)];
    assert RingThere(t, rings, up);
    TakenIn(t, path, up, rings[up], i);
    assert Above(path) == up;
    forall q | q in t' ensures RingThere(t', r', q) {
      assert RingThere(t, rings, q);
      if q != up {
        CutIn(t, path, q, rings[q]);
      }
    }
    forall q | q in t' && q != [] ensures Hung(t', r', q) {
      assert Hung(t, rings, q);
      assert !(path <= Above(q));
    }
  }

  /** Distinct paths have distinct nodes, and their rings have no node in common. */
  lemma RingsApart(t: map<Path, Node>, rings: map<Path, seq<Node>>, up: Path)
    requires Whole(t, rings) && up in t
    ensures up in rings && forall q | q in t && q != up :: q in rings && t[q] != t[up]
    ensures forall q, c | q in t && q != up && c in rings[q] :: c !in rings[up]
  {
    assert RingThere(t, rings, up);
    forall q | q in t && q != up ensures q in rings && t[q] != t[up] && forall c | c in rings[q] :: c !in rings[up] {
      assert RingThere(t, rings, q);
      forall c | c in rings[q] && c in rings[up] ensures false {
        LastApart(q, c.name, up, c.name);
      }
    }
  }

  lemma OnlyRootWhole(root: Node)
    requires root.at == []
    ensures Whole(map[[] := root], map[[] := []]) && NameRings(map[[] := []]) == map[[] := []]
  {
  }

  ghost function RingsOf(t: map<Path, Node>): map<Path, seq<Node>>
    reads t.Values`ring
  {
    map q | q in t :: t[q].ring
  }

  ghost function InodesOf(t: map<Path, Node>): map<Path, Word>
    reads t.Values`inode
  {
    map q | q in t && q != [] :: t[q].inode
  }

  ghost function NameRings(rings: map<Path, seq<Node>>): map<Path, seq<Name>> {
    map q | q in rings :: NamesOf(rings[q])
  }

  ghost predicate RingWithin(t: map<Path, Node>, node: Node)
    reads node`ring
  {
    forall c | c in node.ring :: c in t.Values
  }

  /** Every ring of the tree is closed. */
  ghost predicate AllClosed(t: map<Path, Node>)
    reads t.Values
  {
    forall q | q in t :: RingWithin(t, t[q]) && t[q].Closed()
  }

  lemma Shut(t: map<Path, Node>, rings: map<Path, seq<Node>>)
    requires Whole(t, rings) && forall q | q in t :: q in rings && t[q].ring == rings[q] && t[q].Closed()
    ensures AllClosed(t)
  {
    forall q | q in t ensures RingWithin(t, t[q]) {
      assert RingThere(t, rings, q);
    }
  }

  ghost predicate Unfreed(t: map<Path, Node>, freed: set<Node>) {
    forall q | q in t :: t[q] !in freed
  }

  lemma EnteredView(inodes: map<Path, Word>, rings: map<Path, seq<Node>>, up: Path, node: Node, x: Word)
    requires up in rings && node.at == up + [node.name]
    ensures PathCache(inodes[node.at := x], NameRings(rings[up := Entered(rings[up], node)][node.at := []]))
         == Missed(PathCache(inodes, NameRings(rings)), up, node.name, x)
  {
    hide Entered, NamesOf;
    NamesEntered(rings[up], node);
  }

  lemma HitView(inodes: map<Path, Word>, rings: map<Path, seq<Node>>, up: Path, name: Name, i: nat)
    requires up in rings && i == IndexOf(NamesOf(rings[up]), name) < |rings[up]|
    ensures PathCache(inodes, NameRings(rings[up := Rotated(rings[up], i)]))
         == Hit(PathCache(inodes, NameRings(rings)), up, name)
  {
    hide Rotated, NamesOf, IndexOf;
    NamesRotated(rings[up], i);
  }

  lemma TakenView(inodes: map<Path, Word>, rings: map<Path, seq<Node>>, up: Path, name: Name, i: nat)
    requires up in rings && i == IndexOf(NamesOf(rings[up]), name) < |rings[up]|
    ensures var c, path := PathCache(inodes, NameRings(rings)), up + [name];
            && (Removable(c, up, name) <==> CanTake(|rings[up]|, i))
            && (Removable(c, up, name) ==>
                  PathCache(Cut(inodes, path), NameRings(Cut(rings, path)[up := Taken(rings[up], i)]))
                  == PathCaches.Removed(c, up, name))
  {
    hide Taken, NamesOf, IndexOf;
    NamesTaken(rings[up], i);
  }

  lemma NothingTaken(c: PathCache, rings: map<Path, seq<Node>>, up: Path, name: Name)
    requires up in rings && c.rings == NameRings(rings) && IndexOf(NamesOf(rings[up]), name) == |rings[up]|
    ensures Removable(c, up, name) && PathCaches.Removed(c, up, name) == c
  {
  }

  lemma RingIsOk(t: map<Path, Node>, rings: map<Path, seq<Node>>, c: PathCache, p: Path)
    requires Whole(t, rings) && rings.Keys == t.Keys
    requires c.inodes.Keys == t.Keys - {[]} && c.rings == NameRings(rings)
    requires p in t ==> Distinct<Name>(NamesOf(rings[p]))
    ensures RingOk(c, p)
  {
    hide NamesOf, IndexOf, RingThere;
    forall s: Name ensures s in RingAt(c, p) <==> p + [s] in c.inodes {
      if p in t {
        NameCached(t, rings, p, s);
      } else {
        assert p + [s] in t ==> Hung(t, rings, p + [s]);
        assert Above(p + [s]) == p;
      }
    }
  }

  /** The nodes at p and below form a tree of closed rings. */
  ghost predicate Standing(t: map<Path, Node>, rings: map<Path, seq<Node>>, p: Path)
    reads t.Values
  {
    Branch(t, rings, p)
    && forall q | q in t && p <= q :: q in rings && t[q].ring == rings[q] && RingWithin(t, t[q]) && t[q].Closed()
  }

  lemma StandingTop(t: map<Path, Node>, rings: map<Path, seq<Node>>, p: Path)
    requires Standing(t, rings, p)
    ensures Branch(t, rings, p) && p in t && p in rings && t[p].ring == rings[p] && t[p].Closed()
  {
    assert p <= p;
  }

  lemma SubStanding(t: map<Path, Node>, rings: map<Path, seq<Node>>, p: Path, q: Path)
    requires Standing(t, rings, p) && q in t && p <= q
    ensures Standing(t, rings, q)
  {
  }

  /** The next child to release has a subtree of its own, apart from those already cleared. */
  lemma NextChild(t: map<Path, Node>, rings: map<Path, seq<Node>>, p: Path, k: nat)
    requires Standing(t, rings, p) && p in rings && k < |rings[p]|
    ensures var c := rings[p][k];
            && c.at in t && t[c.at] == c && Standing(t, rings, c.at) && PathsBelow(t, c.at) < PathsBelow(t, p)
            && Subtree(t, c.at) == NodesBelow(t, c.at) + {c} <= NodesBelow(t, p)
            && c !in NodesBelow(t, c.at) && Cleared(t, rings[p], k) !! Subtree(t, c.at)
            && Cleared(t, rings[p], k + 1) == Cleared(t, rings[p], k) + Subtree(t, c.at)
  {
    hide Standing, Cleared, Subtree, PathsBelow, NodesBelow;
    StandingTop(t, rings, p);
    ClearedAll(t, rings, p);
    var c := rings[p][k];
    assert c in rings[p];
    ClearedNext(t, p, rings[p], k);
    SubStanding(t, rings, p, c.at);
    SubtreeTop(t, c.at);
    FewerBelow(t, p, c.at);
  }

  lemma {:induction false} PrefixThere(t: map<Path, Node>, rings: map<Path, seq<Node>>, p: Path, q: Path)
    requires Whole(t, rings) && q in t && p <= q
    ensures p in t
    decreases |q|
  {
    if |p| < |q| {
      assert Hung(t, rings, q);
      PrefixThere(t, rings, p, Above(q));
    } else {
      assert p == q;
    }
  }

  /** Where nothing is cached for a path, nothing is below it either. */
  lemma NothingThere(t: map<Path, Node>, rings: map<Path, seq<Node>>, p: Path)
    requires Whole(t, rings) && p !in t
    ensures Cut(t, p) == t && Subtree(t, p) == {}
  {
    forall q | q in t ensures !(p <= q) {
      if p <= q {
        PrefixThere(t, rings, p, q);
      }
    }
  }

  lemma WholeBranch(t: map<Path, Node>, rings: map<Path, seq<Node>>, p: Path)
    requires Whole(t, rings) && p in t
    ensures Branch(t, rings, p)
  {
  }

  lemma CutRings(t: map<Path, Node>, path: Path)
    ensures RingsOf(Cut(t, path)) == Cut(RingsOf(t), path) && InodesOf(Cut(t, path)) == Cut(InodesOf(t), path)
  {
  }

  lemma CutUpdate<T>(m: map<Path, T>, path: Path, up: Path, x: T)
    requires |up| < |path|
    ensures Cut(m[up := x], path) == Cut(m, path)[up := x]
  {
  }

  /** A removed subtree stands by itself; what is left stands when the ring that lost its top is closed. */
  lemma TwoParts(t: map<Path, Node>, rings: map<Path, seq<Node>>, up: Path, name: Name, i: nat)
    requires Whole(t, rings) && up in t && up in rings && i < |rings[up]|
    requires up + [name] in t && rings[up][i] == t[up + [name]]
    requires RingsOf(t) == rings[up := Taken(rings[up], i)]
    requires forall q | q in t && q != up :: t[q].Closed()
    ensures var path := up + [name];
            var t' := Cut(t, path);
            && RingsOf(t') == Cut(rings, path)[up := Taken(rings[up], i)] && Whole(t', RingsOf(t'))
            && [] in t && [] in t' && t'[[]] == t[[]] && Placed(t) && (AllClosed(t') <==> t[up].Closed())
                && InodesOf(t') == Cut(InodesOf(t), path)
            && Standing(t, rings, path)
  {
    hide Node.Closed, Taken, RingThere;
    var path := up + [name];
    var t' := Cut(t, path);
    CutRings(t, path);
    CutUpdate(rings, path, up, Taken(rings[up], i));
    TakenWhole(t, rings, up, name, i);
    assert up in t' && t'[up] == t[up];
    if t[up].Closed() {
      Shut(t', RingsOf(t'));
    }
    WholeBranch(t, rings, path);
    forall q | q in t && path <= q
      ensures q in rings && t[q].ring == rings[q] && RingWithin(t, t[q]) && t[q].Closed()
    {
      RingsWithin(t, rings);
      assert q in RingsOf(t) && RingsOf(t)[q] == t[q].ring;
    }
  }

  lemma RingsWithin(t: map<Path, Node>, rings: map<Path, seq<Node>>)
    requires Whole(t, rings)
    ensures forall q, c | q in t && q in rings && c in rings[q] :: c in t.Values
  {
    forall q, c | q in t && q in rings && c in rings[q] ensures c in t.Values {
      assert RingThere(t, rings, q);
    }
  }

  lemma EveryNode(t: map<Path, Node>)
    ensures Subtree(t, []) == t.Values
  {
  }

  lemma CutUnfreed(t: map<Path, Node>, freed: set<Node>, path: Path)
    requires Placed(t) && Unfreed(t, freed)
    ensures Subtree(t, path) !! freed && Unfreed(Cut(t, path), freed + Subtree(t, path))
  {
  }

  /** The cache: all nodes hang in closed rings below the root. */
  class DentryCache {
    const root: Node
    ghost var tree: map<Path, Node>
    /** The nodes given back with `free`. */
    ghost var freed: set<Node>

    constructor ()
      ensures Valid() && fresh(root) && root.at == [] && tree == map[[] := root] && View() == EMPTY && freed == {}
    {
      hide NamesOf;
      root := new Node([47], ROOT, []);
      freed := {};
      new;
      tree := map[[] := root];
      assert RingsOf(tree) == map[[] := []] && InodesOf(tree) == map[];
      OnlyRootWhole(root);
    }

    /** The rings are closed, distinct subtrees have distinct nodes, and no node in use was freed. */
    ghost predicate Valid()
      reads this, tree.Values
    {
      Whole(tree, RingsOf(tree)) && tree[[]] == root && AllClosed(tree) && Unfreed(tree, freed)
    }

    /** The cache as a value. */
    ghost function View(): PathCache
      reads this`tree, tree.Values`inode, tree.Values`ring
    {
      PathCache(InodesOf(tree), NameRings(RingsOf(tree)))
    }

    /** The rings hold exactly the cached children, and a cached path has its parent cached. */
    lemma ViewOk()
      requires Valid()
      ensures Ringed(View()) && Rooted(View().inodes)
    {
      hide Node.Closed, NamesOf, RingOk, RingThere, RingWithin;
      forall p: Path ensures RingOk(View(), p) {
        if p in tree {
          DistinctNames(tree[p]);
        }
        RingIsOk(tree, RingsOf(tree), View(), p);
      }
      forall p | p in View().inodes ensures p != [] && (|p| > 1 ==> p[..|p| - 1] in View().inodes) {
        assert Hung(tree, RingsOf(tree), p);
      }
    }

    /** A node of the cache. */
    ghost predicate Cached(node: Node)
      reads this`tree
    {
      node.at in tree && tree[node.at] == node
    }

    /** The children of a node of the cache are nodes of the cache. */
    lemma RingCached(node: Node)
      requires Valid() && Cached(node)
      ensures forall i | 0 <= i < |node.ring| :: Cached(node.ring[i])
    {
      assert RingThere(tree, RingsOf(tree), node.at);
    }

    /** The directory meant by a parent pointer: none stands for the root. */
    function Dir(parent: Node?): Node {
      if parent == null then root else parent
    }

    /** `insert` into a ring of the tree moves no other ring. */
    method Enter(d: Node, name: Name, inode: Word) returns (node: Node)
      requires Valid() && Cached(d) && d.at + [name] !in tree
      modifies d`childs, d`ring, d.ring`next
      ensures fresh(node) && node.name == name && node.at == d.at + [name] && d.at in old(RingsOf(tree))
      ensures var t, r := tree[node.at := node], old(RingsOf(tree));
              && RingsOf(t) == r[d.at := Entered(r[d.at], node)][node.at := []] && Whole(t, RingsOf(t)) && AllClosed(t)
              && InodesOf(t) == old(InodesOf(tree))[node.at := inode]
    {
      hide Node.Closed, Whole, RingThere, RingWithin, Entered, NamesOf, IndexOf;
      ghost var r, up := RingsOf(tree), d.at;
      NameCached(tree, r, up, name);
      RingsApart(tree, r, up);
      assert NamesOf(r[up]) == NamesOf(d.ring);
      node := d.Insert(name, inode);
      forall q | q in tree && q != up ensures tree[q].ring == r[q] && tree[q].Closed() {
        assert old(tree[q].Closed()) && forall c | c in r[q] :: c !in r[up];
        assert forall c | c in old(tree[q].ring) :: c.next == old(c.next);
      }
      EnteredWhole(tree, r, up, node);
      Shut(tree[node.at := node], r[up := Entered(r[up], node)][node.at := []]);
    }

    /** `insert`. */
    method Insert(parent: Node?, name: Name, inode: Word) returns (node: Node)
      requires Valid() && Cached(Dir(parent)) && Dir(parent).at + [name] !in tree
      modifies this`tree, tree.Values`childs, tree.Values`ring, tree.Values`next
      ensures Valid() && fresh(node) && Cached(node) && tree == old(tree)[Dir(parent).at + [name] := node]
      ensures View() == Missed(old(View()), Dir(parent).at, name, inode)
    {
      hide Node.Closed, AllClosed, Whole, Entered, Missed, NameRings, RingsOf, InodesOf;
      ghost var r, inodes, up := RingsOf(tree), InodesOf(tree), Dir(parent).at;
      RingCached(Dir(parent));
      node := Enter(Dir(parent), name, inode);
      tree := tree[node.at := node];
      EnteredView(inodes, r, up, node, inode);
    }

    /** `lookup`. */
    method Lookup(parent: Node?, name: Name) returns (node: Node?)
      requires Valid() && Cached(Dir(parent))
      modifies tree.Values`childs, tree.Values`ring
      ensures Valid()
      ensures node != null <==> Dir(parent).at + [name] in old(View()).inodes
      ensures node != null ==> Cached(node) && node.at == Dir(parent).at + [name]
      ensures node != null ==> node.inode == old(View()).inodes[Dir(parent).at + [name]]
      ensures View() == if node != null then Hit(old(View()), Dir(parent).at, name) else old(View())
    {
      hide Node.Closed, Whole, RingThere, RingWithin, Rotated, NamesOf, IndexOf, Hit, NameRings;
      var d := Dir(parent);
      ghost var r, up := RingsOf(tree), d.at;
      ghost var i := IndexOf(NamesOf(r[up]), name);
      NameCached(tree, r, up, name);
      RingsApart(tree, r, up);
      node := d.Lookup(name, i);
      assert forall q | q in tree && q != up :: tree[q].ring == r[q] && tree[q].Closed();
      if node != null {
        RotatedWhole(tree, r, up, i);
        assert RingsOf(tree) == r[up := Rotated(r[up], i)];
        HitView(InodesOf(tree), r, up, name, i);
      } else {
        assert RingsOf(tree) == r;
      }
      Shut(tree, RingsOf(tree));
    }

    /** `free`. */
    method Free(node: Node)
      requires node !in freed
      modifies this`freed
      ensures freed == old(freed) + {node}
    {
      freed := freed + {node};
    }

    /** `release_node` frees exactly the nodes below, each once, and reads none that is free. */
    method Release(parent: Node, ghost t: map<Path, Node>, ghost rings: map<Path, seq<Node>>)
      requires Standing(t, rings, parent.at) && t[parent.at] == parent && Subtree(t, parent.at) !! freed
      modifies this`freed
      ensures freed == old(freed) + NodesBelow(t, parent.at)
      decreases PathsBelow(t, parent.at)
    {
      hide Standing, Branch, RingIn, Cleared, Subtree, PathsBelow, NodesBelow;
      ghost var p, ring, k := parent.at, parent.ring, 0;
      StandingTop(t, rings, p);
      ClearedAll(t, rings, p);
      SubtreeTop(t, p);
      var ptr := parent.childs;
      if ptr == null { return; }
      while true
        invariant 0 <= k < |ring| && ptr == ring[k] && parent !in freed
        invariant freed == old(freed) + Cleared(t, ring, k)
        decreases |ring| - k
      {
        NextChild(t, rings, p, k);
        assert ptr !in freed;
        var next := ptr.next;
        Release(ptr, t, rings);
        Free(ptr);
        ptr := next;
        k := k + 1;
        if ptr == parent.childs { return; }
      }
    }

    /** `remove` up to the release moves no other ring. */
    method Detach(d: Node, name: Name, ghost i: nat) returns (node: Node?)
      requires Valid() && Cached(d) && i == IndexOf(NamesOf(d.ring), name)
      modifies d`childs, d`ring, d.ring`next
      ensures d.at in old(RingsOf(tree)) && old(RingsOf(tree))[d.at] == old(d.ring)
      ensures node == if d.at + [name] in tree then tree[d.at + [name]] else null
      ensures node == null <==> i == |old(d.ring)|
      ensures node == null ==> Valid() && RingsOf(tree) == old(RingsOf(tree))
      ensures node != null ==> node == old(d.ring)[i] && node.at == d.at + [name]
      ensures node != null ==> RingsOf(tree) == old(RingsOf(tree))[d.at := Taken(old(d.ring), i)]
      ensures node != null ==> (d.Closed() <==> CanTake(|old(d.ring)|, i))
      ensures node != null && !d.Closed() ==> old(d.ring)[0] in d.ring && old(d.ring)[0].next == node
      ensures forall q | q in tree && q != d.at :: tree[q].Closed()
    {
      hide Node.Closed, Whole, RingThere, RingWithin, Taken, NamesOf, IndexOf;
      ghost var r, up := RingsOf(tree), d.at;
      NameCached(tree, r, up, name);
      RingsApart(tree, r, up);
      node := d.Remove(name, i);
      forall q | q in tree && q != up ensures tree[q].ring == r[q] && tree[q].Closed() {
        assert old(tree[q].Closed()) && forall c | c in r[q] :: c !in r[up];
        assert forall c | c in old(tree[q].ring) :: c.next == old(c.next);
      }
      if node == null {
        Shut(tree, r);
      }
    }

    /**
     * `remove` takes exactly the child and its subtree out of the cache and frees their nodes.  The
     * rings stay closed exactly when the child is removable; otherwise its ring leads to a freed node.
     */
    method Remove(parent: Node?, name: Name)
      requires Valid() && Cached(Dir(parent))
      modifies this`tree, this`freed, tree.Values`childs, tree.Values`ring, tree.Values`next
      ensures tree == Cut(old(tree), Dir(parent).at + [name])
      ensures freed == old(freed) + Subtree(old(tree), Dir(parent).at + [name])
      ensures Valid() <==> Removable(old(View()), Dir(parent).at, name)
      ensures Valid() ==> View() == PathCaches.Removed(old(View()), Dir(parent).at, name)
      ensures !Valid() ==> exists c | c in Dir(parent).ring :: c.next in freed
    {
      hide Node.Closed, Whole, RingThere, RingWithin, Taken, NamesOf, IndexOf, AllClosed, Standing, Subtree, NodesBelow;
      hide InodesOf, RingsOf, NameRings, Unfreed, Cut, CanTake, Placed, Removable, PathCaches.Removed;
      var d := Dir(parent);
      ghost var t, r, inodes, path := tree, RingsOf(tree), InodesOf(tree), d.at + [name];
      ghost var i := IndexOf(NamesOf(d.ring), name);
      RingCached(d);
      var node := Detach(d, name, i);
      if node == null {
        NothingThere(t, r, path);
        NothingTaken(PathCache(inodes, NameRings(r)), r, d.at, name);
        return;
      }
      TwoParts(t, r, d.at, name, i);
      TakenView(inodes, r, d.at, name, i);
      tree := Cut(tree, path);
      CutUnfreed(t, freed, path);
      SubtreeTop(t, path);
      Release(node, t, r);
      Free(node);
      assert freed == old(freed) + Subtree(t, path);
    }

    /** The destructor frees every node that is still in use. */
    method Destroy()
      requires Valid()
      modifies this`freed
      ensures freed == old(freed) + tree.Values
    {
      hide Node.Closed, RingThere, Hung, RingWithin;
      ghost var r := RingsOf(tree);
      WholeBranch(tree, r, []);
      SubtreeTop(tree, []);
      EveryNode(tree);
      Release(root, tree, r);
      Free(root);
    }
  }
}
