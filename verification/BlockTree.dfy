/**
 * The pointer tree of an inode: 12 direct blocks and one single, one double and one triple
 * indirect block.  A position names a place in the tree, `Loc` follows the pointers to the block
 * stored there.  Every writer and reader of the block map is specified against `Loc`.
 *
 * Leaves (the lowest-level indirect blocks) are numbered uniformly: leaf 0 is the single indirect
 * block, leaves 1..1024 hang off the double indirect block, leaves 1025.. off the triple one.
 * File block k >= 12 is therefore always entry (k-12) % 1024 of leaf (k-12) / 1024.
 */
module BlockTree {
  import opened Bytes

  const DIRECT: nat := 12
  const IND_SLOT: nat := 12
  const DIND_SLOT: nat := 13
  const TIND_SLOT: nat := 14
  const POINTERS: nat := 15

  // File block numbers at which each indirect range ends (the last one inside it).
  const IBLOCK_11: nat := 11
  const IBLOCK_12: nat := 1035
  const IBLOCK_13: nat := 1_049_611
  const IBLOCK_14: nat := 1_074_791_435

  // File block numbers at which each indirect range starts.
  const DIND_START: nat := 1036
  const TIND_START: nat := 1_049_612
  const TREE_CAPACITY: nat := 1_074_791_436
  const K: nat := 1024
  const K2: nat := 1_048_576

  type Pointers = s: seq<Word> | |s| == 15 witness seq(15, _ => 0)

  datatype Pos = Data(k: nat) | Leaf(c: nat) | Dind | Tind | TMid(q: nat)

  predicate Within(p: Pos) {
    match p
    case Data(k) => k < TREE_CAPACITY
    case Leaf(c) => c < 1 + K + K2
    case TMid(q) => q < K
    case _ => true
  }

  /** The first file block reached through position p. */
  function Start(p: Pos): nat {
    match p
    case Data(k) => k
    case Leaf(c) => DIRECT + K * c
    case Dind => DIND_START
    case Tind => TIND_START
    case TMid(q) => TIND_START + K2 * q
  }

  /** Position p is in use in a file of n blocks. */
  predicate Live(p: Pos, n: nat) {
    Within(p) && Start(p) < n
  }

  ghost function LiveSet(n: nat): iset<Pos> {
    iset p | Live(p, n)
  }

  predicate IsRoot(p: Pos) {
    match p
    case Data(k) => k < DIRECT
    case Leaf(c) => c == 0
    case TMid(_) => false
    case _ => true
  }

  function RootSlot(p: Pos): (s: nat)
    requires IsRoot(p)
    ensures s < POINTERS
  {
    match p
    case Data(k) => k
    case Leaf(_) => IND_SLOT
    case Dind => DIND_SLOT
    case Tind => TIND_SLOT
  }

  function Parent(p: Pos): Pos
    requires !IsRoot(p)
  {
    match p
    case Data(k) => Leaf((k - DIRECT) / K)
    case Leaf(c) => if c <= K then Dind else TMid((c - 1 - K) / K)
    case TMid(_) => Tind
  }

  function Slot(p: Pos): (s: nat)
    requires !IsRoot(p)
  {
    match p
    case Data(k) => (k - DIRECT) % K
    case Leaf(c) => if c <= K then c - 1 else (c - 1 - K) % K
    case TMid(q) => q
  }

  function Height(p: Pos): nat {
    match p
    case Data(_) => 3
    case Leaf(_) => 2
    case TMid(_) => 1
    case _ => 0
  }

  /** The block number stored at position p of the tree rooted in `ib`. */
  function Loc(ib: Pointers, st: Store, p: Pos): Word
    decreases Height(p)
  {
    if IsRoot(p) then ib[RootSlot(p)] else Rd(st, Loc(ib, st, Parent(p)), Slot(p))
  }

  // ---- shape of the tree ----

  lemma ParentLive(p: Pos, n: nat)
    requires Live(p, n) && !IsRoot(p)
    ensures Live(Parent(p), n) && !Parent(p).Data? && Slot(p) < K
  {
  }

  /** A parent and a slot determine the child. */
  lemma ChildUnique(p: Pos, q: Pos)
    requires Within(p) && Within(q) && !IsRoot(p) && !IsRoot(q)
    requires Parent(p) == Parent(q) && Slot(p) == Slot(q)
    ensures p == q
  {
  }

  // ---- ownership ----

  /** The position of file f that a block is used for. */
  datatype Owned<F> = Owned(f: F, p: Pos)

  ghost predicate Closed(att: iset<Pos>) {
    forall p | p in att :: Within(p) && (!IsRoot(p) ==> Parent(p) in att)
  }

  /** Every attached position of f points at an allocated block that f owns for that position only. */
  ghost predicate Tree<F>(f: F, ib: Pointers, st: Store, att: iset<Pos>, owner: map<Word, Owned<F>>) {
    forall p {:trigger Loc(ib, st, p)} | p in att ::
      var b := Loc(ib, st, p); b in st && b in owner && owner[b] == Owned(f, p)
  }

  lemma LiveSetClosed(n: nat)
    ensures Closed(LiveSet(n))
  {
    forall p | p in LiveSet(n) && !IsRoot(p) ensures Parent(p) in LiveSet(n) {
      ParentLive(p, n);
    }
  }

  /** Nothing in the tree moves when every interior block keeps its contents. */
  lemma {:induction false} LocFrame(ib: Pointers, st: Store, st': Store, att: iset<Pos>, p: Pos)
    requires Closed(att) && p in att
    requires forall q | q in att && !q.Data? :: Loc(ib, st, q) in st && Loc(ib, st, q) in st'
                                                && st'[Loc(ib, st, q)] == st[Loc(ib, st, q)]
    ensures Loc(ib, st', p) == Loc(ib, st, p)
    decreases Height(p)
  {
    if !IsRoot(p) {
      LocFrame(ib, st, st', att, Parent(p));
    }
  }

  /**
   * A file keeps its tree when its blocks stay allocated, keep their owner, and interior blocks keep
   * their contents.
   */
  lemma TreeFrame<F>(f: F, ib: Pointers, st: Store, st': Store, att: iset<Pos>,
                           owner: map<Word, Owned<F>>, owner': map<Word, Owned<F>>)
    requires Closed(att) && Tree(f, ib, st, att, owner)
    requires forall b | b in owner && owner[b].f == f :: b in st' && b in owner' && owner'[b] == owner[b]
    requires forall b | b in owner && b in st && owner[b].f == f && !owner[b].p.Data? :: b in st' && st'[b] == st[b]
    ensures Tree(f, ib, st', att, owner')
    ensures forall p | p in att :: Loc(ib, st', p) == Loc(ib, st, p)
  {
    forall p | p in att ensures Loc(ib, st', p) == Loc(ib, st, p) {
      LocFrame(ib, st, st', att, p);
    }
  }

  /** Storing block b in an unused root pointer attaches root position p and moves nothing else. */
  lemma AttachRoot<F>(f: F, ib: Pointers, st: Store, att: iset<Pos>, owner: map<Word, Owned<F>>, p: Pos, b: Word)
    requires Closed(att) && Tree(f, ib, st, att, owner)
    requires IsRoot(p) && Within(p) && p !in att && b in st && b !in owner
    ensures var ib' := ib[RootSlot(p) := b];
            && Tree(f, ib', st, att + iset{p}, owner[b := Owned(f, p)])
            && Closed(att + iset{p})
            && Loc(ib', st, p) == b
            && forall q | q in att :: Loc(ib', st, q) == Loc(ib, st, q)
  {
    var ib' := ib[RootSlot(p) := b];
    forall q | q in att ensures Loc(ib', st, q) == Loc(ib, st, q) {
      LocRoot(ib, st, att, p, b, q);
    }
  }

  lemma {:induction false} LocRoot(ib: Pointers, st: Store, att: iset<Pos>, p: Pos, b: Word, q: Pos)
    requires Closed(att) && IsRoot(p) && p !in att && q in att
    ensures Loc(ib[RootSlot(p) := b], st, q) == Loc(ib, st, q)
    decreases Height(q)
  {
    if !IsRoot(q) {
      LocRoot(ib, st, att, p, b, Parent(q));
    }
  }

  /** Storing block b in the parent's slot attaches position p and moves nothing else. */
  lemma AttachChild<F>(f: F, ib: Pointers, st: Store, att: iset<Pos>, owner: map<Word, Owned<F>>, p: Pos, b: Word)
    requires Closed(att) && Tree(f, ib, st, att, owner)
    requires !IsRoot(p) && Within(p) && p !in att && Parent(p) in att && Slot(p) < K
    requires b in st && b !in owner
    ensures Loc(ib, st, Parent(p)) in st
    ensures var x := Loc(ib, st, Parent(p));
            var st' := st[x := PutWord(st[x], Slot(p), b)];
            && Tree(f, ib, st', att + iset{p}, owner[b := Owned(f, p)])
            && Closed(att + iset{p})
            && Loc(ib, st', p) == b
            && forall q | q in att :: Loc(ib, st', q) == Loc(ib, st, q)
  {
    var x := Loc(ib, st, Parent(p));
    var st' := st[x := PutWord(st[x], Slot(p), b)];
    forall q | q in att ensures Loc(ib, st', q) == Loc(ib, st, q) {
      LocChild(f, ib, st, att, owner, p, b, q);
    }
  }

  lemma {:induction false} LocChild<F>(f: F, ib: Pointers, st: Store, att: iset<Pos>,
                                             owner: map<Word, Owned<F>>, p: Pos, b: Word, q: Pos)
    requires Closed(att) && Tree(f, ib, st, att, owner)
    requires !IsRoot(p) && Within(p) && p !in att && Parent(p) in att && Slot(p) < K && q in att
    ensures Loc(ib, st, Parent(p)) in st
    ensures var x := Loc(ib, st, Parent(p));
            Loc(ib, st[x := PutWord(st[x], Slot(p), b)], q) == Loc(ib, st, q)
    decreases Height(q)
  {
    var x := Loc(ib, st, Parent(p));
    if !IsRoot(q) {
      LocChild(f, ib, st, att, owner, p, b, Parent(q));
      if Loc(ib, st, Parent(q)) == x && Slot(q) == Slot(p) {
        ChildUnique(p, q);
      }
    }
  }

  // ---- growing one file step by step ----

  /** What the block map of a file depends on: its pointers, the store and the ownership. */
  datatype Snap<F> = Snap(ib: Pointers, st: Store, owner: map<Word, Owned<F>>) {
    function At(p: Pos): Word {
      Loc(ib, st, p)
    }

    ghost predicate Holds(f: F, att: iset<Pos>) {
      Tree(f, ib, st, att, owner)
    }
  }

  /** The first n block numbers of the file, in file order. */
  function ListOf<F>(g: Snap<F>, n: nat): (l: seq<Word>)
    ensures |l| == n && forall k | 0 <= k < n :: l[k] == g.At(Data(k))
  {
    seq(n, k requires 0 <= k => g.At(Data(k)))
  }

  /** The contents of the first n blocks of the file. */
  function ContentOf<F>(g: Snap<F>, n: nat): (c: seq<Block>)
    ensures |c| == n && forall k | 0 <= k < n :: g.At(Data(k)) in g.st ==> c[k] == g.st[g.At(Data(k))]
  {
    seq(n, k requires 0 <= k => var b := g.At(Data(k)); if b in g.st then g.st[b] else ZeroBlock())
  }

  /** Blocks owned at the start keep their owner; only interior blocks of f may have new contents. */
  ghost predicate Kept<F>(f: F, g0: Snap<F>, g: Snap<F>) {
    forall b | b in g0.owner ::
      && b in g0.st && b in g.st && b in g.owner && g.owner[b] == g0.owner[b]
      && (g0.owner[b].f != f || g0.owner[b].p.Data? ==> g.st[b] == g0.st[b])
  }

  /**
   * File f had n blocks in g0.  In g it has the positions att attached, those that were live
   * before stay where they were, and no other file is disturbed.
   */
  ghost predicate Progress<F>(f: F, n: nat, g0: Snap<F>, g: Snap<F>, att: iset<Pos>) {
    && g.owner.Keys <= g.st.Keys
    && Closed(att) && LiveSet(n) <= att
    && g.Holds(f, att)
    && Kept(f, g0, g)
    && (forall b | b in g.st && b !in g0.st :: b < VOLUME_BLOCKS)
    && forall p | p in LiveSet(n) :: g.At(p) == g0.At(p)
  }

  lemma ProgressStart<F>(f: F, n: nat, g: Snap<F>)
    requires g.Holds(f, LiveSet(n)) && g.owner.Keys <= g.st.Keys
    ensures Progress(f, n, g, g, LiveSet(n))
  {
    LiveSetClosed(n);
  }

  /** A freshly allocated block disturbs nothing. */
  lemma ProgressAlloc<F>(f: F, n: nat, g0: Snap<F>, g: Snap<F>, att: iset<Pos>, b: Word, contents: Block)
    requires Progress(f, n, g0, g, att) && b !in g.st && b < VOLUME_BLOCKS
    ensures var g' := g.(st := g.st[b := contents]);
            Progress(f, n, g0, g', att) && forall p | p in att :: g'.At(p) == g.At(p)
  {
    TreeFrame(f, g.ib, g.st, g.st[b := contents], att, g.owner, g.owner);
  }

  /** Writing a fresh block into a root pointer attaches it. */
  lemma ProgressRoot<F>(f: F, n: nat, g0: Snap<F>, g: Snap<F>, att: iset<Pos>, p: Pos, b: Word)
    requires Progress(f, n, g0, g, att)
    requires IsRoot(p) && Within(p) && p !in att && b in g.st && b !in g.owner
    ensures var g' := Snap(g.ib[RootSlot(p) := b], g.st, g.owner[b := Owned(f, p)]);
            && Progress(f, n, g0, g', att + iset{p})
            && g'.At(p) == b
            && forall q | q in att :: g'.At(q) == g.At(q)
  {
    AttachRoot(f, g.ib, g.st, att, g.owner, p, b);
  }

  /** Writing a fresh block into its slot of the parent block attaches it. */
  lemma ProgressChild<F>(f: F, n: nat, g0: Snap<F>, g: Snap<F>, att: iset<Pos>, p: Pos, b: Word)
    requires Progress(f, n, g0, g, att)
    requires !IsRoot(p) && Within(p) && p !in att && Parent(p) in att && Slot(p) < K && b in g.st && b !in g.owner
    ensures g.At(Parent(p)) in g.st && g.At(Parent(p)) in g.owner
    ensures var x := g.At(Parent(p));
            var g' := g.(st := g.st[x := PutWord(g.st[x], Slot(p), b)], owner := g.owner[b := Owned(f, p)]);
            && Progress(f, n, g0, g', att + iset{p})
            && g'.At(p) == b
            && forall q | q in att :: g'.At(q) == g.At(q)
  {
    AttachChild(f, g.ib, g.st, att, g.owner, p, b);
    assert !Parent(p).Data?;
  }

  /** An attached position holds an allocated block, found in the inode or in the parent block. */
  lemma Attached<F>(f: F, n: nat, g0: Snap<F>, g: Snap<F>, att: iset<Pos>, p: Pos)
    requires Progress(f, n, g0, g, att) && p in att
    ensures g.At(p) in g.st && g.At(p) in g.owner
    ensures IsRoot(p) ==> g.At(p) == g.ib[RootSlot(p)]
    ensures !IsRoot(p) ==> Parent(p) in att && g.At(Parent(p)) in g.st
    ensures !IsRoot(p) && Slot(p) < K ==> g.At(p) == GetWord(g.st[g.At(Parent(p))], Slot(p))
  {
  }

  lemma DistinctRoots<F>(f: F, n: nat, g0: Snap<F>, g: Snap<F>, att: iset<Pos>)
    requires Progress(f, n, g0, g, att) && Tind in att && n > DIND_START
    ensures g.ib[TIND_SLOT] != g.ib[DIND_SLOT] && g.ib[DIND_SLOT] in g.st
    ensures g.ib[DIND_SLOT] in g.owner
  {
    assert Dind in att;
    assert g.At(Dind) != g.At(Tind);
  }

  lemma ProgressRestrict<F>(f: F, n: nat, g0: Snap<F>, g: Snap<F>, att: iset<Pos>, m: nat)
    requires Progress(f, n, g0, g, att) && n <= m && LiveSet(m) <= att
    ensures Progress(f, n, g0, g, LiveSet(m))
  {
    LiveSetClosed(m);
  }

  lemma ProgressThen<F>(f: F, n: nat, g0: Snap<F>, g1: Snap<F>, g2: Snap<F>, att: iset<Pos>)
    requires Progress(f, n, g0, g1, LiveSet(n)) && Progress(f, n, g1, g2, att)
    ensures Progress(f, n, g0, g2, att)
  {
  }

  /** Live data blocks keep their number and their contents while the file grows. */
  lemma ProgressLists<F>(f: F, n: nat, g0: Snap<F>, g: Snap<F>, m: nat)
    requires Progress(f, n, g0, g, LiveSet(m)) && n <= m <= TREE_CAPACITY && g0.Holds(f, LiveSet(n))
    ensures ListOf(g, n) == ListOf(g0, n) && ContentOf(g, n) == ContentOf(g0, n)
    ensures g.owner.Keys <= g.st.Keys && g.Holds(f, LiveSet(m))
    ensures forall b | b in g.st && b !in g0.st :: b < VOLUME_BLOCKS
    ensures forall p | p in LiveSet(n) :: g.At(p) == g0.At(p)
  {
    forall k | 0 <= k < n ensures g.At(Data(k)) == g0.At(Data(k)) && g.At(Data(k)) in g.st
                                  && g.At(Data(k)) in g0.st && g.st[g.At(Data(k))] == g0.st[g.At(Data(k))] {
      assert Data(k) in LiveSet(n);
    }
  }

  lemma ListsGrow<F>(g: Snap<F>, n: nat, b: Word)
    requires g.At(Data(n)) == b && b in g.st
    ensures ListOf(g, n + 1) == ListOf(g, n) + [b]
    ensures ContentOf(g, n + 1) == ContentOf(g, n) + [g.st[b]]
  {
  }

  /** Another file is not affected at all. */
  lemma OtherFile<F>(f: F, n: nat, g0: Snap<F>, g: Snap<F>, att: iset<Pos>, o: F, oib: Pointers, m: nat)
    requires Progress(f, n, g0, g, att) && o != f && m <= TREE_CAPACITY
    requires g0.(ib := oib).Holds(o, LiveSet(m))
    ensures g.(ib := oib).Holds(o, LiveSet(m))
    ensures ListOf(g.(ib := oib), m) == ListOf(g0.(ib := oib), m)
    ensures ContentOf(g.(ib := oib), m) == ContentOf(g0.(ib := oib), m)
  {
    LiveSetClosed(m);
    TreeFrame(o, oib, g0.st, g.st, LiveSet(m), g0.owner, g.owner);
    var h, h0 := g.(ib := oib), g0.(ib := oib);
    forall k | 0 <= k < m ensures h.At(Data(k)) == h0.At(Data(k)) && h.At(Data(k)) in h.st
                                  && h.At(Data(k)) in h0.st && h.st[h.At(Data(k))] == h0.st[h.At(Data(k))] {
      assert Data(k) in LiveSet(m);
    }
  }

  /** Each block of a file is allocated and its number identifies the position. */
  lemma DataThere<F>(f: F, g: Snap<F>, n: nat, k: nat)
    requires g.Holds(f, LiveSet(n)) && k < n <= TREE_CAPACITY
    ensures g.At(Data(k)) in g.st && g.At(Data(k)) in g.owner && g.owner[g.At(Data(k))] == Owned(f, Data(k))
    ensures ContentOf(g, n)[k] == g.st[g.At(Data(k))] && ListOf(g, n)[k] == g.At(Data(k))
  {
    assert Data(k) in LiveSet(n);
  }

  /** A file has no more blocks than there are block numbers. */
  lemma CountBounded<F>(f: F, g: Snap<F>, n: nat, limit: nat)
    requires g.Holds(f, LiveSet(n)) && n <= TREE_CAPACITY
    requires forall b | b in g.st :: b < limit
    ensures n <= limit
  {
    forall k | 0 <= k < n ensures g.At(Data(k)) in g.st && g.owner[g.At(Data(k))] == Owned(f, Data(k)) {
      DataThere(f, g, n, k);
    }
    Pigeonhole(ListOf(g, n), limit);
  }

  lemma {:induction false} Pigeonhole(s: seq<nat>, limit: nat)
    requires forall i | 0 <= i < |s| :: s[i] < limit
    requires forall i, j | 0 <= i < j < |s| :: s[i] != s[j]
    ensures |s| <= limit
  {
    if s != [] {
      assert s[0] < limit;
      if i :| 0 <= i < |s| && s[i] == limit - 1 {
        Pigeonhole(s[..i] + s[i + 1..], limit - 1);
      } else {
        Pigeonhole(s, limit - 1);
      }
    }
  }

  /** A live position below the roots is the word of its slot in the parent block. */
  lemma LiveWord<F>(f: F, g: Snap<F>, n: nat, p: Pos)
    requires g.Holds(f, LiveSet(n)) && Live(p, n)
    ensures g.At(p) in g.st
    ensures IsRoot(p) ==> g.At(p) == g.ib[RootSlot(p)]
    ensures !IsRoot(p) ==> Slot(p) < K && g.At(Parent(p)) in g.st && g.At(p) == GetWord(g.st[g.At(Parent(p))], Slot(p))
  {
    assert p in LiveSet(n);
    if !IsRoot(p) {
      ParentLive(p, n);
      assert Parent(p) in LiveSet(n);
    }
  }

  /** New contents for data block k of file f leave every tree in place and change that block only. */
  lemma DataWritten<F>(f: F, g: Snap<F>, n: nat, k: nat, b: Word, contents: Block)
    requires g.owner.Keys <= g.st.Keys
    requires g.Holds(f, LiveSet(n)) && k < n <= TREE_CAPACITY && g.At(Data(k)) == b
    ensures b in g.st && b in g.owner && g.owner[b] == Owned(f, Data(k))
    ensures var g' := g.(st := g.st[b := contents]);
            && g'.Holds(f, LiveSet(n))
            && (forall p | p in LiveSet(n) :: g'.At(p) == g.At(p))
            && ListOf(g', n) == ListOf(g, n)
            && ContentOf(g', n) == ContentOf(g, n)[k := contents]
  {
    LiveSetClosed(n);
    assert Data(k) in LiveSet(n);
    TreeFrame(f, g.ib, g.st, g.st[b := contents], LiveSet(n), g.owner, g.owner);
    forall j | 0 <= j < n ensures Data(j) in LiveSet(n) {}
  }

  lemma DataWrittenOther<F>(f: F, g: Snap<F>, b: Word, k: nat, contents: Block, o: F, oib: Pointers, m: nat)
    requires g.owner.Keys <= g.st.Keys && b in g.owner && g.owner[b] == Owned(f, Data(k)) && o != f
             && m <= TREE_CAPACITY
    requires g.(ib := oib).Holds(o, LiveSet(m))
    ensures var h, h' := g.(ib := oib), g.(ib := oib, st := g.st[b := contents]);
            h'.Holds(o, LiveSet(m)) && ListOf(h', m) == ListOf(h, m) && ContentOf(h', m) == ContentOf(h, m)
  {
    LiveSetClosed(m);
    TreeFrame(o, oib, g.st, g.st[b := contents], LiveSet(m), g.owner, g.owner);
    forall j | 0 <= j < m ensures Data(j) in LiveSet(m) {}
  }

  // ---- where file block n hangs, and what it brings with it ----

  /** The positions that come into use when a file grows from n to n + 1 blocks. */
  ghost function Fresh(n: nat): iset<Pos> {
    iset p | Within(p) && Start(p) == n
  }

  lemma LiveNext(n: nat)
    ensures LiveSet(n + 1) == LiveSet(n) + Fresh(n)
    ensures LiveSet(n) !! Fresh(n)
  {
  }

  lemma FreshDirect(n: nat)
    requires n < DIRECT
    ensures Fresh(n) == iset{Data(n)}
  {
  }

  lemma FreshSingle(n: nat)
    requires DIRECT <= n <= IBLOCK_12
    ensures Fresh(n) == (if n == DIRECT then iset{Leaf(0)} else iset{}) + iset{Data(n)}
    ensures n != DIRECT ==> Leaf(0) in LiveSet(n)
    ensures Parent(Data(n)) == Leaf(0) && Slot(Data(n)) == n - DIRECT
  {
  }

  /** The writer's arithmetic in the double-indirect range. */
  lemma FreshDouble(n: nat)
    requires IBLOCK_12 < n <= IBLOCK_13
    ensures var c, inner := (n - DIRECT) / K, (n - DIRECT - K) % K;
            && 1 <= c <= K
            && Parent(Data(n)) == Leaf(c) && Slot(Data(n)) == inner
            && Parent(Leaf(c)) == Dind && Slot(Leaf(c)) == c - 1
            && (n - DIRECT - 1) / K == (if inner == 0 then c - 1 else c)
            && (inner != 0 ==> Leaf(c) in LiveSet(n))
            && (n != DIND_START ==> Dind in LiveSet(n))
            && Fresh(n) == (if n == DIND_START then iset{Dind} else iset{})
                           + (if inner == 0 then iset{Leaf(c)} else iset{}) + iset{Data(n)}
            && (n == DIND_START ==> inner == 0)
  {
    var c, inner := (n - DIRECT) / K, (n - DIRECT - K) % K;
    assert n - DIRECT == K * c + inner;
    forall p | p in Fresh(n) ensures p == Data(n) || (p == Dind && n == DIND_START) || (p == Leaf(c) && inner == 0) {
      if p.Leaf? {
        assert K * p.c == K * c + inner;
      }
    }
  }

  lemma DivModK(a: nat, q: nat, r: nat)
    requires a == K * q + r && r < K
    ensures a / K == q && a % K == r
  {
  }

  lemma DivModK2(a: nat, q: nat, r: nat)
    requires a == K2 * q + r && r < K2
    ensures a / K2 == q && a % K2 == r
  {
  }

  /** File block TIND_START + q * K2 + s * K + t. */
  lemma TripleDigits(n: nat) returns (q: nat, s: nat, t: nat)
    requires IBLOCK_13 < n < TREE_CAPACITY
    ensures q == (n - TIND_START) / K2 && q < K && s < K && t < K
    ensures n == TIND_START + K2 * q + K * s + t
    ensures (n - TIND_START) % K2 == K * s + t
    ensures (n - TIND_START) % K2 / K == s && (n - TIND_START) % K == t
    ensures (n - TIND_START) % K2 % K == t
    ensures (n - DIRECT) / K == 1 + K + K * q + s && (n - DIRECT) % K == t
    ensures (K * q + s) / K == q && (K * q + s) % K == s
  {
    var m := n - TIND_START;
    q := m / K2;
    var r := m % K2;
    s, t := r / K, r % K;
    assert m == K2 * q + r && r == K * s + t;
    DivModK(m, K * q + s, t);
    DivModK(n - DIRECT, 1 + K + K * q + s, t);
    DivModK(K * q + s, q, s);
  }

  lemma TriplePlace(n: nat, q: nat, s: nat, t: nat)
    requires q < K && s < K && t < K && n == TIND_START + K2 * q + K * s + t
    ensures Parent(Data(n)) == Leaf(1 + K + K * q + s) && Slot(Data(n)) == t
    ensures Parent(Leaf(1 + K + K * q + s)) == TMid(q) && Slot(Leaf(1 + K + K * q + s)) == s
    ensures t != 0 ==> Leaf(1 + K + K * q + s) in LiveSet(n)
    ensures K * s + t != 0 ==> TMid(q) in LiveSet(n)
    ensures n != TIND_START ==> Tind in LiveSet(n)
  {
    DivModK(n - DIRECT, 1 + K + K * q + s, t);
    DivModK(K * q + s, q, s);
  }

  lemma FreshTriple(n: nat, q: nat, s: nat, t: nat)
    requires q < K && s < K && t < K && n == TIND_START + K2 * q + K * s + t
    ensures Fresh(n) == (if n == TIND_START then iset{Tind} else iset{})
                        + (if s == t == 0 then iset{TMid(q)} else iset{})
                        + (if t == 0 then iset{Leaf(1 + K + K * q + s)} else iset{}) + iset{Data(n)}
  {
    var c := 1 + K + K * q + s;
    forall p | p in Fresh(n)
      ensures p == Data(n) || (p == Tind && n == TIND_START) || (p == Leaf(c) && t == 0)
                || (p == TMid(q) && s == t == 0)
    {
      if p.Leaf? {
        assert K * p.c == K * c + t;
      } else if p.TMid? {
        assert K2 * p.q == K2 * q + (K * s + t);
      }
    }
  }

  /** The writer's indices in the triple-indirect range: counts of blocks already linked at each level. */
  lemma TripleCounts(n: nat, q: nat, s: nat, t: nat)
    requires q < K && s < K && t < K && n == TIND_START + K2 * q + K * s + t
    ensures (n - DIRECT - K - K2) % K2 == K * s + t && (K * s + t) % K == t
    ensures (n - DIRECT - K - 1) / K2 == (if s == t == 0 then q else q + 1)
    ensures (K * s + t + K - 1) / K == (if t == 0 then s else s + 1)
  {
    DivModK2(n - TIND_START, q, K * s + t);
    DivModK(K * s + t, s, t);
    if s == 0 && t == 0 {
      DivModK2(n - DIRECT - K - 1, q, K2 - 1);
    } else {
      DivModK2(n - DIRECT - K - 1, q + 1, K * s + t - 1);
    }
    if t == 0 {
      DivModK(K * s + t + K - 1, s, K - 1);
    } else {
      DivModK(K * s + t + K - 1, s + 1, t - 1);
    }
  }
}
