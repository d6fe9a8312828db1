/** `visit_inode_blocks` and `visit_indirect_blocks`: the walk over all blocks of an inode. */
module Walk {
  import opened Bytes
  import opened BlockTree
  import opened Volume

  /** A visitor's answer for a block: true asks the walk to stop. */
  type Visitor = Word -> bool

  /** The blocks up to and including the first one at which the visitor asks to stop. */
  function UntilStop(s: seq<Word>, stop: Visitor): (r: seq<Word>)
    ensures r <= s
  {
    if s == [] then [] else if stop(s[0]) then [s[0]] else [s[0]] + UntilStop(s[1..], stop)
  }

  /** What is visited in the indirect ranges: a stop request only ends the leaf it is made in. */
  function Leaves(s: seq<Word>, stop: Visitor): seq<Word> {
    if |s| <= K then UntilStop(s, stop) else UntilStop(s[..K], stop) + Leaves(s[K..], stop)
  }

  predicate StopsAmong(s: seq<Word>, stop: Visitor) {
    exists k | 0 <= k < |s| :: stop(s[k])
  }

  /** What the walk visits of a file with the given block list. */
  function Visited(list: seq<Word>, stop: Visitor): seq<Word> {
    if |list| <= DIRECT || StopsAmong(list[..DIRECT], stop) then
      UntilStop(list[..Min(|list|, DIRECT)], stop)
    else
      list[..DIRECT] + Leaves(list[DIRECT..], stop)
  }

  /** Two blocks of the file whose numbers are in the same leaf. */
  predicate SameLeaf(j: nat, k: nat) {
    j >= DIRECT && k >= DIRECT && (j - DIRECT) / K == (k - DIRECT) / K
  }

  /** The walk gets to block k: no earlier block that is direct, or in the same leaf, asks to stop. */
  predicate GetsTo(list: seq<Word>, stop: Visitor, k: nat)
    requires k < |list|
  {
    forall j | 0 <= j < k && (j < DIRECT || SameLeaf(j, k)) :: !stop(list[j])
  }

  /** Those of the first n blocks that the walk gets to, in file order. */
  function ReachedBlocks(list: seq<Word>, stop: Visitor, n: nat): seq<Word>
    requires n <= |list|
  {
    if n == 0 then []
    else ReachedBlocks(list, stop, n - 1) + if GetsTo(list, stop, n - 1) then [list[n - 1]] else []
  }

  /** The walk visits exactly the blocks it gets to, in file order. */
  lemma {:induction false} VisitedExact(list: seq<Word>, stop: Visitor, n: nat)
    requires n <= |list|
    ensures Visited(list[..n], stop) == ReachedBlocks(list, stop, n)
  {
    hide Visited;
    if n == 0 {
      NothingVisited(list[..0], stop);
    } else {
      VisitedExact(list, stop, n - 1);
      assert list[..n - 1] + [list[n - 1]] == list[..n];
      VisitedNext(list[..n - 1], list[n - 1], stop);
      assert GetsTo(list[..n], stop, n - 1) <==> GetsTo(list, stop, n - 1);
    }
  }

  lemma NothingVisited(list: seq<Word>, stop: Visitor)
    requires list == []
    ensures Visited(list, stop) == []
  {
  }

  lemma StopsNone(s: seq<Word>, stop: Visitor)
    requires s == []
    ensures !StopsAmong(s, stop)
  {
  }

  lemma StopsFirst(s: seq<Word>, stop: Visitor)
    requires s != []
    ensures StopsAmong(s, stop) <==> stop(s[0]) || StopsAmong(s[1..], stop)
  {
    assert forall k | 0 < k < |s| :: s[k] == s[1..][k - 1];
  }

  lemma {:induction false} UntilStopNext(s: seq<Word>, x: Word, stop: Visitor)
    ensures UntilStop(s + [x], stop) == UntilStop(s, stop) + if StopsAmong(s, stop) then [] else [x]
  {
    hide StopsAmong;
    StopsNone([], stop);
    if s != [] {
      assert (s + [x])[1..] == s[1..] + [x];
      UntilStopNext(s[1..], x, stop);
      StopsFirst(s, stop);
    }
  }

  /** The unfinished leaf at the end, or nothing when all leaves are full. */
  function LastLeaf(s: seq<Word>): seq<Word> {
    s[|s| - |s| % K..]
  }

  lemma {:induction false} LeavesNext(s: seq<Word>, x: Word, stop: Visitor)
    ensures Leaves(s + [x], stop) == Leaves(s, stop) + if StopsAmong(LastLeaf(s), stop) then [] else [x]
    decreases |s|
  {
    hide UntilStop, StopsAmong;
    if |s| < K {
      assert LastLeaf(s) == s;
      UntilStopNext(s, x, stop);
    } else {
      var first, rest := s[..K], s[K..];
      assert (s + [x])[..K] == first && (s + [x])[K..] == rest + [x];
      LeavesNext(rest, x, stop);
      LastLeafRest(s);
      LeavesSplit(s, stop);
    }
  }

  lemma LastLeafRest(s: seq<Word>)
    requires |s| >= K
    ensures LastLeaf(s[K..]) == LastLeaf(s)
  {
    assert |s[K..]| % K == |s| % K;
  }

  lemma VisitedNext(list: seq<Word>, x: Word, stop: Visitor)
    ensures Visited(list + [x], stop) == Visited(list, stop) + if GetsTo(list + [x], stop, |list|) then [x] else []
  {
    hide UntilStop, Leaves, LastLeaf;
    var n := |list|;
    if n < DIRECT {
      assert (list + [x])[..n + 1] == list + [x] && list[..n] == list;
      UntilStopNext(list, x, stop);
      ShortVisited(list, stop);
      ShortVisited(list + [x], stop);
      assert StopsAmong(list, stop) <==> !GetsTo(list + [x], stop, n) by {
        assert forall j | 0 <= j < n :: (list + [x])[j] == list[j];
      }
    } else {
      assert (list + [x])[..DIRECT] == list[..DIRECT] && (list + [x])[DIRECT..] == list[DIRECT..] + [x];
      LongVisited(list, stop);
      LongVisited(list + [x], stop);
      LeavesNext(list[DIRECT..], x, stop);
      GetsToLeaf(list, x, stop);
    }
  }

  lemma ShortVisited(list: seq<Word>, stop: Visitor)
    requires |list| <= DIRECT
    ensures Visited(list, stop) == UntilStop(list, stop)
  {
    assert list[..|list|] == list;
  }

  lemma LongVisited(list: seq<Word>, stop: Visitor)
    requires |list| >= DIRECT
    ensures Visited(list, stop) == if StopsAmong(list[..DIRECT], stop) then UntilStop(list[..DIRECT], stop)
                                   else list[..DIRECT] + Leaves(list[DIRECT..], stop)
  {
    if |list| == DIRECT && !StopsAmong(list[..DIRECT], stop) {
      UntilStopAll(list[..DIRECT], stop);
      assert list[DIRECT..] == [] && list[..DIRECT] == list;
    }
  }

  lemma GetsToLeaf(list: seq<Word>, x: Word, stop: Visitor)
    requires |list| >= DIRECT
    ensures GetsTo(list + [x], stop, |list|) <==>
              !StopsAmong(list[..DIRECT], stop) && !StopsAmong(LastLeaf(list[DIRECT..]), stop)
  {
    var n, s := |list|, list[DIRECT..];
    var m := |s| - |s| % K;
    forall j | DIRECT <= j < n ensures SameLeaf(j, n) <==> j - DIRECT >= m {
    }
    var all, last := list + [x], LastLeaf(s);
    assert forall j | 0 <= j < DIRECT :: list[..DIRECT][j] == all[j];
    assert forall i | 0 <= i < |last| :: last[i] == all[DIRECT + m + i];
    if StopsAmong(last, stop) {
      var i :| 0 <= i < |last| && stop(last[i]);
      assert SameLeaf(DIRECT + m + i, n);
    }
    if !GetsTo(all, stop, n) {
      var j :| 0 <= j < n && (j < DIRECT || SameLeaf(j, n)) && stop(all[j]);
      if j < DIRECT {
        assert stop(list[..DIRECT][j]);
      } else {
        assert last[j - DIRECT - m] == all[j];
      }
    }
  }

  lemma {:induction false} UntilStopAll(s: seq<Word>, stop: Visitor)
    requires forall k | 0 <= k < |s| :: !stop(s[k])
    ensures UntilStop(s, stop) == s
  {
    if s != [] {
      UntilStopAll(s[1..], stop);
    }
  }

  lemma {:induction false} UntilStopStep(s: seq<Word>, x: Word, stop: Visitor)
    requires forall k | 0 <= k < |s| :: !stop(s[k])
    ensures UntilStop(s + [x], stop) == s + [x]
  {
    if s != [] {
      assert (s + [x])[1..] == s[1..] + [x];
      UntilStopStep(s[1..], x, stop);
    }
  }

  lemma {:induction false} UntilStopPrefix(s: seq<Word>, t: seq<Word>, stop: Visitor)
    requires s != [] && stop(s[|s| - 1]) && forall k | 0 <= k < |s| - 1 :: !stop(s[k])
    ensures UntilStop(s + t, stop) == s
  {
    if |s| > 1 {
      assert (s + t)[1..] == s[1..] + t;
      UntilStopPrefix(s[1..], t, stop);
    }
  }

  /** Another leaf after full ones. */
  lemma {:induction false} LeavesAppend(a: seq<Word>, b: seq<Word>, stop: Visitor)
    requires |a| % K == 0 && |b| <= K
    ensures Leaves(a + b, stop) == Leaves(a, stop) + UntilStop(b, stop)
    decreases |a|
  {
    hide UntilStop;
    if a == [] {
      assert a + b == b;
      assert UntilStop(a, stop) == [];
    } else if b == [] {
      assert a + b == a;
      assert UntilStop(b, stop) == [];
    } else {
      assert |a| >= K;
      assert (a + b)[..K] == a[..K] && (a + b)[K..] == a[K..] + b;
      LeavesSplit(a + b, stop);
      if |a| == K {
        assert a[K..] + b == b && a[..K] == a;
      } else {
        LeavesAppend(a[K..], b, stop);
        LeavesSplit(a, stop);
      }
    }
  }

  lemma LeavesSplit(s: seq<Word>, stop: Visitor)
    requires |s| >= K
    ensures Leaves(s, stop) == UntilStop(s[..K], stop) + Leaves(s[K..], stop)
  {
    if |s| == K {
      assert s[..K] == s && s[K..] == [];
    }
  }

  /** A visitor that never stops sees exactly the block list, in file order. */
  lemma {:induction false} LeavesAll(s: seq<Word>, stop: Visitor)
    requires forall k | 0 <= k < |s| :: !stop(s[k])
    ensures Leaves(s, stop) == s
    decreases |s|
  {
    if |s| <= K {
      UntilStopAll(s, stop);
    } else {
      UntilStopAll(s[..K], stop);
      LeavesAll(s[K..], stop);
    }
  }

  lemma VisitedAll(list: seq<Word>, stop: Visitor)
    requires forall k | 0 <= k < |list| :: !stop(list[k])
    ensures Visited(list, stop) == list
  {
    hide UntilStop, Leaves, Visited;
    if |list| <= DIRECT {
      UntilStopAll(list, stop);
      ShortVisited(list, stop);
    } else {
      UntilStopAll(list[..DIRECT], stop);
      LeavesAll(list[DIRECT..], stop);
      LongVisited(list, stop);
    }
  }

  // ---- the walk ----

  /** The walk of the indirect ranges has reached block curr, having visited out. */
  ghost predicate Reached(list: seq<Word>, stop: Visitor, curr: nat, out: seq<Word>) {
    && DIRECT <= curr <= |list|
    && (curr == |list| || (curr - DIRECT) % K == 0)
    && out == Leaves(list[DIRECT..curr], stop)
  }

  /** `visit_indirect_blocks` with the caller's visitor: at most num entries of block x. */
  method VisitLeaf(fs: FileSystem, x: Word, num: nat, stop: Visitor) returns (ok: bool, out: seq<Word>)
    requires x in fs.blocks
    requires forall i | 0 <= i < Min(num, K) :: GetWord(fs.blocks[x], i) in fs.blocks
    ensures ok && out == UntilStop(Words(fs.blocks[x], Min(num, K)), stop)
  {
    hide UntilStop, GetWord;
    var words := Words(fs.blocks[x], Min(num, K));
    out := [];
    var i := 0;
    while i < num && i < K
      invariant i <= Min(num, K) && out == words[..i] && forall k | 0 <= k < i :: !stop(words[k])
    {
      var index := GetWord(fs.blocks[x], i);
      if index !in fs.blocks { return false, out; }
      out := out + [index];
      if stop(index) {
        UntilStopPrefix(words[..i + 1], words[i + 1..], stop);
        assert words[..i + 1] + words[i + 1..] == words;
        return true, out;
      }
      i := i + 1;
    }
    UntilStopAll(words, stop);
    ok := true;
  }

  function Words(b: Block, m: nat): (w: seq<Word>)
    requires m <= K
    ensures |w| == m && forall i | 0 <= i < m :: w[i] == GetWord(b, i)
  {
    seq(m, i requires 0 <= i < m => GetWord(b, i))
  }

  /** The first words of leaf c are the file blocks that start there. */
  lemma LeafWords<F>(f: F, g: Snap<F>, n: nat, c: nat, m: nat)
    requires g.Holds(f, LiveSet(n)) && Live(Leaf(c), n) && n <= TREE_CAPACITY
    requires m == Min(K, n - (DIRECT + K * c))
    ensures g.At(Leaf(c)) in g.st
    ensures Words(g.st[g.At(Leaf(c))], m) == ListOf(g, n)[DIRECT + K * c..][..m]
    ensures forall i | 0 <= i < m :: GetWord(g.st[g.At(Leaf(c))], i) in g.st
  {
    hide Loc, Tree, GetWord, LiveSet;
    LiveWord(f, g, n, Leaf(c));
    forall i | 0 <= i < m
      ensures GetWord(g.st[g.At(Leaf(c))], i) == g.At(Data(DIRECT + K * c + i))
                && g.At(Data(DIRECT + K * c + i)) in g.st
    {
      var k := DIRECT + K * c + i;
      DivModK(k - DIRECT, c, i);
      LiveWord(f, g, n, Data(k));
    }
  }

  /** One leaf further. */
  lemma ReachedNext(list: seq<Word>, stop: Visitor, curr: nat, out: seq<Word>, m: nat)
    requires Reached(list, stop, curr, out) && curr < |list| && m == Min(K, |list| - curr)
    ensures Reached(list, stop, curr + m, out + UntilStop(list[curr..][..m], stop))
  {
    hide UntilStop, Leaves;
    LeavesAppend(list[DIRECT..curr], list[curr..][..m], stop);
    assert list[DIRECT..curr] + list[curr..][..m] == list[DIRECT..curr + m];
  }

  /** Entry i of indirect block x is leaf c0 + i, as far as the file reaches. */
  ghost predicate HoldsLeaves<F>(g: Snap<F>, n: nat, x: Word, c0: nat) {
    x in g.st && forall i | 0 <= i < K && Live(Leaf(c0 + i), n) :: GetWord(g.st[x], i) == g.At(Leaf(c0 + i))
  }

  /**
   * `visit_indirect_blocks` with `indirect_visitor`: at most num leaves of block x.  Entries beyond
   * the last leaf of the file, which num may include, contribute nothing.
   */
  method VisitLeaves(fs: FileSystem, inode: Inode, x: Word, num: nat, n: nat, curr0: nat, out0: seq<Word>,
                     ghost c0: nat, stop: Visitor) returns (ok: bool, curr: nat, out: seq<Word>)
    requires fs.Valid() && inode in fs.files && n == inode.Count() && DIRECT < n
    requires HoldsLeaves(fs.SnapOf(inode), n, x, c0) && c0 + K <= 1 + K + K2
    requires Reached(fs.DataList(inode), stop, curr0, out0) && curr0 == DIRECT + K * c0 < n
    requires curr0 + K * num >= n || num >= K
    ensures Reached(fs.DataList(inode), stop, curr, out)
    ensures curr == Min(n, curr0 + K * K)
    ensures K * num < n - curr0 + K ==> ok
  {
    hide Loc, Tree, LiveSet, UntilStop, GetWord, Reached, ListOf, Leaves;
    ghost var g, list := fs.SnapOf(inode), fs.DataList(inode);
    CountBounded(inode, g, n, VOLUME_BLOCKS);
    curr, out := curr0, out0;
    var i := 0;
    while i < num && i < K
      invariant i <= num && i <= K
      invariant curr == Min(n, curr0 + K * i) && Reached(list, stop, curr, out)
    {
      if curr < n {
        LeafThere(inode, g, n, x, c0, i);
      }
      var index := GetWord(fs.blocks[x], i);
      if index !in fs.blocks {
        return false, curr, out;
      }
      var _, more := VisitLeaf(fs, index, n - curr, stop);
      var m := Min(n - curr, K);
      if curr < n {
        ReachedNext(list, stop, curr, out, m);
      } else {
        UntilStopNone(Words(fs.blocks[index], 0), stop);
        assert out + more == out;
      }
      out := out + more;
      curr := curr + m;
      i := i + 1;
    }
    ok := true;
  }

  lemma UntilStopNone(s: seq<Word>, stop: Visitor)
    requires s == []
    ensures UntilStop(s, stop) == []
  {
  }

  /** The next leaf is there and holds the next stretch of the block list. */
  lemma LeafThere<F>(f: F, g: Snap<F>, n: nat, x: Word, c0: nat, i: nat)
    requires g.Holds(f, LiveSet(n)) && HoldsLeaves(g, n, x, c0) && i < K && c0 + K <= 1 + K + K2 && n <= TREE_CAPACITY
    requires DIRECT + K * (c0 + i) < n
    ensures var leaf, start := GetWord(g.st[x], i), DIRECT + K * (c0 + i);
            var m := Min(K, n - start);
            && leaf in g.st
            && Words(g.st[leaf], m) == ListOf(g, n)[start..][..m]
            && forall k | 0 <= k < m :: GetWord(g.st[leaf], k) in g.st
  {
    hide Loc, Tree, GetWord, LiveSet, ListOf;
    assert Live(Leaf(c0 + i), n);
    LeafWords(f, g, n, c0 + i, Min(K, n - (DIRECT + K * (c0 + i))));
  }

  lemma SingleThere<F>(f: F, g: Snap<F>, n: nat)
    requires g.Holds(f, LiveSet(n)) && DIRECT < n <= TREE_CAPACITY
    ensures var leaf, m := g.ib[IND_SLOT], Min(K, n - DIRECT);
            && leaf in g.st
            && Words(g.st[leaf], m) == ListOf(g, n)[DIRECT..][..m]
            && forall k | 0 <= k < m :: GetWord(g.st[leaf], k) in g.st
  {
    hide Tree, GetWord, LiveSet, ListOf;
    LeafWords(f, g, n, 0, Min(K, n - DIRECT));
  }

  lemma DoubleThere<F>(f: F, g: Snap<F>, n: nat)
    requires g.Holds(f, LiveSet(n)) && DIND_START < n
    ensures HoldsLeaves(g, n, g.ib[DIND_SLOT], 1)
  {
    hide Loc, Tree, GetWord, LiveSet;
    LiveWord(f, g, n, Dind);
    forall i | 0 <= i < K && Live(Leaf(1 + i), n) ensures GetWord(g.st[g.ib[DIND_SLOT]], i) == g.At(Leaf(1 + i)) {
      LiveWord(f, g, n, Leaf(1 + i));
    }
  }

  lemma TripleThere<F>(f: F, g: Snap<F>, n: nat, q: nat)
    requires g.Holds(f, LiveSet(n)) && q < K && TIND_START + K2 * q < n
    ensures g.ib[TIND_SLOT] in g.st
    ensures HoldsLeaves(g, n, GetWord(g.st[g.ib[TIND_SLOT]], q), 1 + K + K * q)
  {
    hide Loc, Tree, GetWord, LiveSet;
    LiveWord(f, g, n, Tind);
    LiveWord(f, g, n, TMid(q));
    var mid := g.At(TMid(q));
    forall i | 0 <= i < K && Live(Leaf(1 + K + K * q + i), n)
        ensures GetWord(g.st[mid], i) == g.At(Leaf(1 + K + K * q + i)) {
      LiveWord(f, g, n, Leaf(1 + K + K * q + i));
      DivModK(K * q + i, q, i);
    }
  }

  /** `visit_indirect_blocks` with `double_indirect_visitor`: the second-level blocks under the triple root. */
  method VisitMids(fs: FileSystem, inode: Inode, root: Word, num: nat, n: nat, curr0: nat, out0: seq<Word>,
      stop: Visitor)
    returns (ok: bool, curr: nat, out: seq<Word>)
    requires fs.Valid() && inode in fs.files && n == inode.Count() && root == inode.block[TIND_SLOT]
    requires Reached(fs.DataList(inode), stop, curr0, out0) && curr0 == TIND_START < n
    requires num == (n - curr0 + K2 - 1) / K2
    ensures ok && curr == n && Reached(fs.DataList(inode), stop, curr, out)
  {
    hide Loc, Tree, LiveSet, UntilStop, GetWord, Reached, ListOf, Leaves;
    ghost var g, list := fs.SnapOf(inode), fs.DataList(inode);
    CountBounded(inode, g, n, VOLUME_BLOCKS);
    curr, out := curr0, out0;
    var q := 0;
    while q < num && q < K
      invariant q <= num && q <= K
      invariant curr == Min(n, curr0 + K2 * q) && Reached(list, stop, curr, out)
    {
      TripleThere(inode, g, n, q);
      var index := GetWord(fs.blocks[root], q);
      if index !in fs.blocks {
        return false, curr, out;
      }
      var ignored;
      ignored, curr, out := VisitLeaves(fs, inode, index, n - curr, n, curr, out, 1 + K + K * q, stop);
      q := q + 1;
    }
    ok := true;
  }

  /** The direct blocks; `done` when the visitor stopped or the file ends here. */
  method VisitDirect(fs: FileSystem, inode: Inode, n: nat, stop: Visitor) returns (done: bool, out: seq<Word>)
    requires fs.Valid() && inode in fs.files && n == inode.Count() && 0 < n
    ensures done <==> n <= DIRECT || StopsAmong(fs.DataList(inode)[..DIRECT], stop)
    ensures done ==> out == UntilStop(fs.DataList(inode)[..Min(n, DIRECT)], stop)
    ensures !done ==> out == fs.DataList(inode)[..DIRECT]
  {
    hide Loc, Tree, LiveSet, UntilStop, ListOf;
    ghost var g, list := fs.SnapOf(inode), fs.DataList(inode);
    ghost var low := list[..Min(n, DIRECT)];
    CountBounded(inode, g, n, VOLUME_BLOCKS);
    out := [];
    var i := 0;
    while i < DIRECT
      invariant i <= DIRECT && i < n && |out| == i
      invariant out == low[..i] && forall k | 0 <= k < i :: !stop(low[k])
    {
      LiveWord(inode, g, n, Data(i));
      assert low[i] == inode.block[i];
      var index := inode.block[i];
      if index !in fs.blocks { return true, out; }
      out := out + [index];
      i := i + 1;
      if stop(index) {
        assert out == low[..i];
        UntilStopPrefix(out, low[i..], stop);
        Rejoined(low, i);
        assert n > DIRECT ==> low == list[..DIRECT] && low[i - 1] == index;
        return true, out;
      }
      if i == n {
        UntilStopAll(low, stop);
        return true, out;
      }
    }
    done := false;
  }

  /**
   * `visit_inode_blocks`: visits exactly `Visited` of the block list; a visitor that never stops sees
   * every block once, in order.
   */
  method VisitInodeBlocks(fs: FileSystem, inode: Inode, stop: Visitor) returns (out: seq<Word>)
    requires fs.Valid() && inode in fs.files
    ensures out == Visited(fs.DataList(inode), stop)
    ensures (forall k | 0 <= k < inode.Count() :: !stop(fs.DataList(inode)[k])) ==> out == fs.DataList(inode)
  {
    hide Loc, Tree, LiveSet, UntilStop, Leaves, ListOf;
    var n := inode.iBlocks / SECTORS_PER_BLOCK;
    ghost var g, list := fs.SnapOf(inode), fs.DataList(inode);
    CountBounded(inode, g, n, VOLUME_BLOCKS);
    if forall k | 0 <= k < n :: !stop(list[k]) {
      VisitedAll(list, stop);
    }
    if n == 0 {
      UntilStopNone(list[..0], stop);
      return [];
    }
    var done;
    done, out := VisitDirect(fs, inode, n, stop);
    if done { return; }
    var rest := VisitIndirect(fs, inode, n, stop);
    out := out + rest;
  }

  /** The single, double and triple ranges in turn. */
  method VisitIndirect(fs: FileSystem, inode: Inode, n: nat, stop: Visitor) returns (out: seq<Word>)
    requires fs.Valid() && inode in fs.files && n == inode.Count() && DIRECT < n
    ensures out == Leaves(fs.DataList(inode)[DIRECT..], stop)
  {
    hide Loc, Tree, LiveSet, UntilStop, Leaves, ListOf, GetWord;
    ghost var g, list := fs.SnapOf(inode), fs.DataList(inode);
    CountBounded(inode, g, n, VOLUME_BLOCKS);
    var curr := DIRECT;
    SingleThere(inode, g, n);
    var ok;
    ok, out := VisitLeaf(fs, inode.block[IND_SLOT], n - curr, stop);
    LeavesStart(list, stop);
    ReachedNext(list, stop, DIRECT, [], Min(K, n - DIRECT));
    assert [] + out == out;
    curr := curr + Min(n - curr, K);
    if curr < n {
      DoubleThere(inode, g, n);
      ok, curr, out := VisitLeaves(fs, inode, inode.block[DIND_SLOT], (n - curr + K - 1) / K, n, curr, out, 1, stop);
      if curr < n {
        ok, curr, out := VisitMids(fs, inode, inode.block[TIND_SLOT], (n - curr + K2 - 1) / K2, n, curr, out, stop);
      }
    }
    assert list[DIRECT..n] == list[DIRECT..];
  }

  lemma LeavesStart(list: seq<Word>, stop: Visitor)
    requires DIRECT <= |list|
    ensures Reached(list, stop, DIRECT, [])
  {
    assert list[DIRECT..DIRECT] == [];
  }

  // ---- when a stop request is honoured ----

  /** The visitor's first stop request is at block k. */
  ghost predicate FirstStop(list: seq<Word>, stop: Visitor, k: nat) {
    k < |list| && stop(list[k]) && forall j | 0 <= j < k :: !stop(list[j])
  }

  lemma UntilStopAt(list: seq<Word>, stop: Visitor, k: nat)
    requires FirstStop(list, stop, k)
    ensures UntilStop(list, stop) == list[..k + 1]
  {
    UntilStopPrefix(list[..k + 1], list[k + 1..], stop);
    assert list[..k + 1] + list[k + 1..] == list;
  }

  /** In the indirect ranges the walk goes on with the next leaf. */
  lemma {:induction false} LeavesLonger(s: seq<Word>, stop: Visitor, k: nat)
    requires FirstStop(s, stop, k)
    ensures k / K == (|s| - 1) / K ==> Leaves(s, stop) == s[..k + 1]
    ensures k / K < (|s| - 1) / K ==> |Leaves(s, stop)| > k + 1
    decreases |s|
  {
    hide UntilStop, Leaves;
    if |s| <= K {
      UntilStopAt(s, stop, k);
      assert Leaves(s, stop) == UntilStop(s, stop) by { LeavesShort(s, stop); }
    } else {
      LeavesSplit(s, stop);
      if k < K {
        UntilStopAt(s[..K], stop, k);
        LeavesNonempty(s[K..], stop);
      } else {
        UntilStopAll(s[..K], stop);
        LeavesLonger(s[K..], stop, k - K);
        assert s[..K] + s[K..][..k - K + 1] == s[..k + 1];
      }
    }
  }

  lemma LeavesShort(s: seq<Word>, stop: Visitor)
    requires |s| <= K
    ensures Leaves(s, stop) == UntilStop(s, stop)
  {
  }

  lemma LeavesNonempty(s: seq<Word>, stop: Visitor)
    requires s != []
    ensures Leaves(s, stop) != []
  {
  }

  /** The whole walk ends at the first stop request exactly when that comes in a direct block or in the last leaf. */
  lemma StopHonoured(list: seq<Word>, stop: Visitor, k: nat)
    requires FirstStop(list, stop, k)
    ensures Visited(list, stop) == list[..k + 1] <==>
              k < DIRECT || (k - DIRECT) / K == (|list| - 1 - DIRECT) / K
  {
    hide UntilStop, Leaves;
    if k < DIRECT {
      UntilStopAt(list[..Min(|list|, DIRECT)], stop, k);
      if |list| > DIRECT {
        assert stop(list[..DIRECT][k]);
      }
      assert list[..Min(|list|, DIRECT)][..k + 1] == list[..k + 1];
    } else {
      LeavesLonger(list[DIRECT..], stop, k - DIRECT);
      assert list[..DIRECT] + list[DIRECT..][..k - DIRECT + 1] == list[..k + 1];
    }
  }

  /** A stop request at the first block behind the direct ones of a file with two leaves is followed by more visits. */
  lemma StopIgnored()
    ensures var list := seq(DIRECT + K + 1, i requires 0 <= i < DIRECT + K + 1 => i as Word);
            Visited(list, b => b == DIRECT) != list[..DIRECT + 1]
  {
    var list := seq(DIRECT + K + 1, i requires 0 <= i < DIRECT + K + 1 => i as Word);
    var stop: Visitor := b => b == DIRECT;
    assert FirstStop(list, stop, DIRECT);
    StopHonoured(list, stop, DIRECT);
  }

  // ---- what a stopping visitor still sees ----

  lemma {:induction false} LeavesSome(s: seq<Word>, stop: Visitor)
    ensures forall x | x in Leaves(s, stop) :: x in s
    ensures Distinct(s) ==> Distinct(Leaves(s, stop))
    ensures StopsAmong(s, stop) ==> StopsAmong(Leaves(s, stop), stop)
    decreases |s|
  {
    hide UntilStop;
    if |s| <= K {
      LeavesShort(s, stop);
      UntilStopSome(s, stop);
    } else {
      LeavesSplit(s, stop);
      var a, c := UntilStop(s[..K], stop), Leaves(s[K..], stop);
      UntilStopSome(s[..K], stop);
      LeavesSome(s[K..], stop);
      StopsSplit(a, c, stop);
      StopsSplit(s[..K], s[K..], stop);
      assert s[..K] + s[K..] == s;
      if Distinct(s) {
        DistinctSplit(s[..K], s[K..], a, c);
      }
    }
  }

  lemma StopsSplit(a: seq<Word>, c: seq<Word>, stop: Visitor)
    ensures StopsAmong(a + c, stop) <==> StopsAmong(a, stop) || StopsAmong(c, stop)
  {
    if k :| 0 <= k < |a| && stop(a[k]) {
      assert (a + c)[k] == a[k];
    }
    if k :| 0 <= k < |c| && stop(c[k]) {
      assert (a + c)[|a| + k] == c[k];
    }
  }

  lemma DistinctSplit(s: seq<Word>, t: seq<Word>, a: seq<Word>, c: seq<Word>)
    requires Distinct(s + t) && a <= s && (Distinct(t) ==> Distinct(c)) && forall x | x in c :: x in t
    ensures Distinct(a + c)
  {
    assert forall i | 0 <= i < |s| :: (s + t)[i] == s[i];
    assert forall i | 0 <= i < |t| :: (s + t)[|s| + i] == t[i];
    assert forall i | 0 <= i < |c| :: c[i] in t;
  }

  lemma {:induction false} UntilStopSome(s: seq<Word>, stop: Visitor)
    ensures UntilStop(s, stop) <= s
    ensures StopsAmong(s, stop) ==> StopsAmong(UntilStop(s, stop), stop)
  {
    if s != [] && !stop(s[0]) {
      UntilStopSome(s[1..], stop);
      StopsSplit([s[0]], s[1..], stop);
      StopsSplit([s[0]], UntilStop(s[1..], stop), stop);
      assert [s[0]] + s[1..] == s;
    }
  }

  /** Whatever the visitor, no block is visited twice, and one at which it would stop is not missed altogether. */
  lemma VisitedSome(list: seq<Word>, stop: Visitor)
    ensures forall x | x in Visited(list, stop) :: x in list
    ensures Distinct(list) ==> Distinct(Visited(list, stop))
    ensures StopsAmong(list, stop) <==> StopsAmong(Visited(list, stop), stop)
  {
    hide UntilStop, Leaves;
    var m := Min(|list|, DIRECT);
    assert list[..m] + list[m..] == list;
    StopsSplit(list[..m], list[m..], stop);
    UntilStopSome(list[..m], stop);
    if |list| > DIRECT && !StopsAmong(list[..DIRECT], stop) {
      LeavesSome(list[DIRECT..], stop);
      StopsSplit(list[..DIRECT], Leaves(list[DIRECT..], stop), stop);
      if Distinct(list) {
        DistinctSplit(list[..DIRECT], list[DIRECT..], list[..DIRECT], Leaves(list[DIRECT..], stop));
      }
    }
    if k :| 0 <= k < |Visited(list, stop)| && stop(Visited(list, stop)[k]) {
      assert Visited(list, stop)[k] in list;
    }
  }
}
