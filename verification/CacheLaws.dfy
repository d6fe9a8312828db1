/** What the block cache promises to its callers: it is invisible, and it keeps what was used last. */
module CacheLaws {
  import opened Bytes
  import opened BlockCaches

  /** A clean block agrees with the disk. */
  ghost predicate Faithful(s: State) {
    forall k | k in s.entries && !s.entries[k].dirty :: s.entries[k].block == OnDisk(s.disk, k)
  }

  /** The list names each cached block once and fits. */
  ghost predicate Sound(s: State, size: nat) {
    && Distinct(s.keys) && |s.keys| <= size && size > 0
    && (forall k | k in s.keys :: k in s.entries) && (forall k | k in s.entries :: k in s.keys)
  }

  ghost predicate SameView(s: State, t: State) {
    forall k: Word :: Look(t, k) == Look(s, k)
  }

  // ---- transparency ----

  /** Taking a block out is invisible exactly when it is dirty or agrees with the disk. */
  lemma RemovedView(s: State, k: Word)
    ensures SameView(s, Removed(s, k)) <==> (k in s.entries && !s.entries[k].dirty ==>
              s.entries[k].block == OnDisk(s.disk, k))
    ensures forall j: Word | j != k :: Look(Removed(s, k), j) == Look(s, j)
    ensures Faithful(s) ==> Faithful(Removed(s, k))
  {
    if k in s.entries && !s.entries[k].dirty && s.entries[k].block != OnDisk(s.disk, k) {
      assert Look(Removed(s, k), k) != Look(s, k);
    }
  }

  /** A block loaded from disk changes nothing for any reader, whichever block it pushes out. */
  lemma LoadView(s: State, k: Word, dirty: bool, size: nat)
    requires Faithful(s) && Sound(s, size)
    ensures var t := if k in s.entries then Used(s, k, dirty) else Inserted(s, k, OnDisk(s.disk, k), dirty, size);
            SameView(s, t) && Faithful(t) && k in t.entries && (dirty ==> t.entries[k].dirty)
  {
    if k !in s.entries && |s.keys| == size {
      var v := s.keys[size - 1];
      assert v in s.keys;
      RemovedView(s, v);
      assert OnDisk(Removed(s, v).disk, k) == OnDisk(s.disk, k);
    }
  }

  /** `get_block`: a read changes no reader's view; a write changes it for its block only, as the copy says. */
  lemma AccessView(s: State, k: Word, dirty: bool, off: nat, buf: seq<Byte>, size: nat)
    requires Faithful(s) && Sound(s, size) && off + |buf| <= BLOCK_SIZE
    ensures var t := Accessed(s, k, dirty, off, buf, size);
            && Faithful(t)
            && forall j: Word :: Look(t, j) == if dirty && j == k then PutBytes(Look(s, k), off, buf) else Look(s, j)
  {
    LoadView(s, k, dirty, size);
  }

  /**
   * A new block put in with a given mark is seen at once; it stays faithful exactly when marked or
   * equal to the disk.
   */
  lemma FreshView(s: State, k: Word, block: Block, dirty: bool, size: nat)
    requires Faithful(s) && Sound(s, size) && k !in s.entries
    ensures var t := Inserted(s, k, block, dirty, size);
            && (forall j: Word :: Look(t, j) == if j == k then block else Look(s, j))
            && (Faithful(t) <==> dirty || block == OnDisk(s.disk, k))
  {
    if |s.keys| == size {
      var v := s.keys[size - 1];
      assert v in s.keys;
      RemovedView(s, v);
      assert OnDisk(Removed(s, v).disk, k) == OnDisk(s.disk, k);
    }
    var t := Inserted(s, k, block, dirty, size);
    assert k in t.entries && t.entries[k] == Entry(block, dirty);
  }

  /**
   * A change through a held block is seen at once and by its readers only.  The cache stays faithful
   * exactly when the block itself is marked, was dirty already, or ends up equal to the disk.
   */
  lemma EditView(s: State, k: Word, off: nat, buf: seq<Byte>, mark: Word)
    requires Faithful(s) && k in s.entries && off + |buf| <= BLOCK_SIZE
    ensures var t, block := Edited(s, k, off, buf, mark), PutBytes(Look(s, k), off, buf);
            && (forall j: Word :: Look(t, j) == if j == k then block else Look(s, j))
            && (Faithful(t) <==> mark == k || s.entries[k].dirty || block == OnDisk(s.disk, k))
            && t.keys == s.keys && t.entries.Keys == s.entries.Keys
  {
    hide PutBytes;
    var t := Edited(s, k, off, buf, mark);
    assert k in t.entries && t.entries[k] == Entry(PutBytes(Look(s, k), off, buf), s.entries[k].dirty || mark == k);
    assert forall j | j in t.entries && j != k ::
        t.entries[j] == Entry(s.entries[j].block, s.entries[j].dirty || mark == j);
  }

  /**
   * The mark that a new entry of the triple root gets goes to another block: if the root is clean, its
   * new word is lost as soon as the root is evicted.
   */
  lemma WrongMarkLost(root: Word, other: Word, v: Word, was: Block, off: nat, buf: seq<Byte>)
    requires root != other && root != v && off + |buf| <= BLOCK_SIZE && PutBytes(was, off, buf) != was
    ensures var s := State([root], map[root := Entry(was, false)], map[root := was]);
            var t := Edited(s, root, off, buf, other);
            && Faithful(s) && Look(t, root) == PutBytes(was, off, buf)
            && Look(Inserted(t, v, OnDisk(t.disk, v), false, 1), root) == was
  {
    hide PutBytes;
    assert Dropped([root], root) == [];
  }

  /**
   * Which blocks are marked after an operation: a flush clears all marks, a free none but its own; an
   * access marks its block if it writes, and an edit the block it names; all other marks stay.
   */
  lemma StepMarks(s: State, op: Op, size: nat, j: Word)
    requires WellFormed(op) && j in Step(s, op, size).entries
    ensures var was := j in s.entries && s.entries[j].dirty;
            Step(s, op, size).entries[j].dirty <==>
              match op
              case Access(k, dirty, _, _) => was || (dirty && j == k)
              case Fresh(_) => was
              case Edit(_, _, _, mark) => was || j == mark
              case Free(_) => was
              case FlushAll => false
  {
    hide Dropped, PutBytes;
  }

  /** A full flush is invisible, and afterwards the disk holds what every reader sees. */
  lemma FlushView(s: State)
    requires Faithful(s)
    ensures SameView(s, Flushed(s)) && Faithful(Flushed(s))
    ensures forall k: Word :: OnDisk(Flushed(s).disk, k) == Look(s, k)
  {
  }

  // ---- the recency list ----

  lemma {:induction false} DroppedMembers(keys: seq<Word>, k: Word)
    requires Distinct(keys)
    ensures Distinct(Dropped(keys, k)) && k !in Dropped(keys, k)
    ensures forall x | x in Dropped(keys, k) :: x in keys
    ensures forall x | x in keys && x != k :: x in Dropped(keys, k)
    ensures |Dropped(keys, k)| == if k in keys then |keys| - 1 else |keys|
  {
    if keys != [] {
      var first, rest := keys[0], keys[1..];
      assert keys == [first] + rest && first !in rest;
      if first != k {
        DroppedMembers(rest, k);
        assert Dropped(keys, k) == [first] + Dropped(rest, k);
        hide Dropped;
        assert first !in Dropped(rest, k);
      }
    }
  }

  /** The list after block k is used: k first, and the last one out when there is no room. */
  function Touched(keys: seq<Word>, k: Word, size: nat): seq<Word> {
    if k in keys then [k] + Dropped(keys, k)
    else if |keys| == size > 0 then [k] + Dropped(keys, keys[size - 1])
    else [k] + keys
  }

  lemma TouchedMembers(keys: seq<Word>, k: Word, size: nat)
    requires Distinct(keys) && |keys| <= size && size > 0
    ensures Distinct(Touched(keys, k, size)) && |Touched(keys, k, size)| <= size && Touched(keys, k, size)[0] == k
    ensures forall x | x in Touched(keys, k, size) :: x == k || x in keys
    ensures forall x | x in keys :: x in Touched(keys, k, size) || (k !in keys && |keys| == size && x == keys[size - 1])
  {
    if k in keys {
      DroppedMembers(keys, k);
    } else if |keys| == size {
      DroppedMembers(keys, keys[size - 1]);
    }
  }

  lemma AccessKeys(s: State, k: Word, dirty: bool, off: nat, buf: seq<Byte>, size: nat)
    requires Sound(s, size) && off + |buf| <= BLOCK_SIZE
    ensures Accessed(s, k, dirty, off, buf, size).keys == Touched(s.keys, k, size)
    ensures Sound(Accessed(s, k, dirty, off, buf, size), size)
  {
    TouchedMembers(s.keys, k, size);
    if k in s.entries {
      DroppedMembers(s.keys, k);
    } else if |s.keys| == size {
      assert s.keys[size - 1] in s.keys;
      DroppedMembers(s.keys, s.keys[size - 1]);
    }
  }

  lemma InsertKeys(s: State, k: Word, block: Block, dirty: bool, size: nat)
    requires Sound(s, size)
    ensures Inserted(s, k, block, dirty, size).keys == Touched(s.keys, k, size)
    ensures Sound(Inserted(s, k, block, dirty, size), size)
  {
    TouchedMembers(s.keys, k, size);
    if k in s.entries {
      DroppedMembers(s.keys, k);
    } else if |s.keys| == size {
      assert s.keys[size - 1] in s.keys;
      DroppedMembers(s.keys, s.keys[size - 1]);
    }
  }

  lemma RemoveKeys(s: State, k: Word, size: nat)
    requires Sound(s, size)
    ensures Sound(Removed(s, k), size)
  {
    DroppedMembers(s.keys, k);
  }

  // ---- whole runs ----

  datatype Op =
    | Access(k: Word, dirty: bool, off: nat, buf: seq<Byte>)   // get_block
    | Fresh(k: Word)                                           // alloc_block: a zero block, entered clean
    | Edit(k: Word, off: nat, buf: seq<Byte>, mark: Word)      // a held block is changed, then modify(mark)
    | Free(k: Word)                                            // free_block
    | FlushAll

  predicate WellFormed(op: Op) {
    op.Access? || op.Edit? ==> op.off + |op.buf| <= BLOCK_SIZE
  }

  function Step(s: State, op: Op, size: nat): State
    requires WellFormed(op)
  {
    match op
    case Access(k, dirty, off, buf) => Accessed(s, k, dirty, off, buf, size)
    case Fresh(k) => Inserted(s, k, ZeroBlock(), false, size)
    case Edit(k, off, buf, mark) => Edited(s, k, off, buf, mark)
    case Free(k) => Removed(s, k)
    case FlushAll => Flushed(s)
  }

  /** The same operation on a plain memory. */
  function MemStep(m: Word -> Block, op: Op): Word -> Block
    requires WellFormed(op)
  {
    match op
    case Access(k, dirty, off, buf) => if dirty then j => if j == k then PutBytes(m(k), off, buf) else m(j) else m
    case Fresh(k) => j => if j == k then ZeroBlock() else m(j)
    case Edit(k, off, buf, _) => j => if j == k then PutBytes(m(k), off, buf) else m(j)
    case Free(_) => m
    case FlushAll => m
  }

  /**
   * A zero block only enters where the disk holds zeros and no copy is cached.  A held block is changed
   * only while it is cached, and then marked unless that makes no difference.
   */
  ghost predicate Safe(s: State, op: Op)
    requires WellFormed(op)
  {
    match op
    case Fresh(k) => k !in s.entries && OnDisk(s.disk, k) == ZeroBlock()
    case Edit(k, off, buf, mark) =>
      && k in s.entries
      && (mark == k || s.entries[k].dirty || PutBytes(Look(s, k), off, buf) == OnDisk(s.disk, k))
    case _ => true
  }

  function Run(s: State, ops: seq<Op>, size: nat): State
    requires forall i | 0 <= i < |ops| :: WellFormed(ops[i])
    decreases |ops|
  {
    if ops == [] then s else Run(Step(s, ops[0], size), ops[1..], size)
  }

  function MemRun(m: Word -> Block, ops: seq<Op>): Word -> Block
    requires forall i | 0 <= i < |ops| :: WellFormed(ops[i])
  {
    if ops == [] then m else MemRun(MemStep(m, ops[0]), ops[1..])
  }

  ghost predicate SafeRun(s: State, ops: seq<Op>, size: nat)
    requires forall i | 0 <= i < |ops| :: WellFormed(ops[i])
    decreases |ops|
  {
    ops == [] || (Safe(s, ops[0]) && SafeRun(Step(s, ops[0], size), ops[1..], size))
  }

  lemma StepView(s: State, op: Op, size: nat, m: Word -> Block)
    requires Faithful(s) && Sound(s, size) && WellFormed(op) && Safe(s, op)
    requires forall k :: Look(s, k) == m(k)
    ensures Faithful(Step(s, op, size)) && Sound(Step(s, op, size), size)
    ensures forall k :: Look(Step(s, op, size), k) == MemStep(m, op)(k)
  {
    match op
    case Access(k, dirty, off, buf) =>
      AccessView(s, k, dirty, off, buf, size);
      AccessKeys(s, k, dirty, off, buf, size);
    case Fresh(k) =>
      FreshView(s, k, ZeroBlock(), false, size);
      InsertKeys(s, k, ZeroBlock(), false, size);
    case Edit(k, off, buf, mark) =>
      EditView(s, k, off, buf, mark);
    case Free(k) =>
      RemovedView(s, k);
      RemoveKeys(s, k, size);
    case FlushAll =>
      FlushView(s);
  }

  /** Over every run the cache behaves like a plain memory, and a final flush makes the disk that memory. */
  lemma {:induction false} CacheInvisible(s: State, ops: seq<Op>, size: nat, m: Word -> Block)
    requires forall i | 0 <= i < |ops| :: WellFormed(ops[i])
    requires Faithful(s) && Sound(s, size) && SafeRun(s, ops, size)
    requires forall k :: Look(s, k) == m(k)
    ensures forall k :: Look(Run(s, ops, size), k) == MemRun(m, ops)(k)
    ensures Faithful(Run(s, ops, size)) && Sound(Run(s, ops, size), size)
    ensures forall k :: OnDisk(Flushed(Run(s, ops, size)).disk, k) == MemRun(m, ops)(k)
    decreases |ops|
  {
    if ops == [] {
      FlushView(s);
    } else {
      StepView(s, ops[0], size, m);
      CacheInvisible(Step(s, ops[0], size), ops[1..], size, MemStep(m, ops[0]));
    }
  }

  // ---- residency ----

  /** The blocks used more recently than k. */
  ghost function Ahead(keys: seq<Word>, k: Word): set<Word> {
    if keys == [] || keys[0] == k then {} else {keys[0]} + Ahead(keys[1..], k)
  }

  lemma {:induction false} AheadAfterDrop(keys: seq<Word>, x: Word, k: Word)
    requires x != k
    ensures Ahead(Dropped(keys, x), k) <= Ahead(keys, k)
  {
    if keys != [] {
      var rest := keys[1..];
      if keys[0] == x {
      } else {
        AheadAfterDrop(rest, x, k);
        assert Dropped(keys, x)[1..] == Dropped(rest, x);
      }
    }
  }

  /** Everything is ahead of the last block. */
  lemma {:induction false} AheadOfLast(keys: seq<Word>)
    requires Distinct(keys) && keys != []
    ensures var k := keys[|keys| - 1];
            |Ahead(keys, k)| == |keys| - 1 && forall x | x in Ahead(keys, k) :: x in keys && x != k
  {
    if |keys| > 1 {
      var rest := keys[1..];
      AheadOfLast(rest);
      assert keys[0] !in rest;
      assert rest[|rest| - 1] == keys[|keys| - 1];
    }
  }

  ghost function Others(uses: seq<Word>, k: Word): set<Word> {
    set x | x in uses && x != k
  }

  /** The blocks that the operations bring to the front, in order. */
  function Uses(ops: seq<Op>): seq<Word> {
    if ops == [] then []
    else (if ops[0].Access? || ops[0].Fresh? then [ops[0].k] else []) + Uses(ops[1..])
  }

  /** What each operation does to the recency list. */
  lemma StepKeys(s: State, op: Op, size: nat)
    requires Sound(s, size) && WellFormed(op)
    ensures Sound(Step(s, op, size), size)
    ensures Step(s, op, size).keys == match op
                                      case Access(k, _, _, _) => Touched(s.keys, k, size)
                                      case Fresh(k) => Touched(s.keys, k, size)
                                      case Free(k) => Dropped(s.keys, k)
                                      case _ => s.keys
  {
    hide Touched, Dropped, Distinct;
    match op
    case Access(k, dirty, off, buf) => AccessKeys(s, k, dirty, off, buf, size);
    case Fresh(k) => InsertKeys(s, k, ZeroBlock(), false, size);
    case Free(k) =>
      RemoveKeys(s, k, size);
      if k !in s.entries {
        DroppedAbsent(s.keys, k);
      }
    case _ =>
  }

  lemma {:induction false} DroppedAbsent(keys: seq<Word>, k: Word)
    requires k !in keys
    ensures Dropped(keys, k) == keys
  {
    if keys != [] {
      DroppedAbsent(keys[1..], k);
    }
  }

  /**
   * Over every run, a block that is not freed stays in the cache as long as the blocks ahead of it and
   * the other blocks used since are fewer than the capacity.
   */
  lemma {:induction false} StaysResident(s: State, ops: seq<Op>, size: nat, k: Word)
    requires forall i | 0 <= i < |ops| :: WellFormed(ops[i]) && ops[i] != Free(k)
    requires Sound(s, size) && k in s.entries && |Ahead(s.keys, k) + Others(Uses(ops), k)| < size
    ensures k in Run(s, ops, size).entries
    decreases |ops|
  {
    hide Touched, Dropped, Distinct, Ahead;
    if ops != [] {
      var t := Step(s, ops[0], size);
      StepKeys(s, ops[0], size);
      StepResident(s.keys, ops, size, k);
      assert t.keys == ListAfter(s.keys, ops[0], size);
      StaysResident(t, ops[1..], size, k);
    }
  }

  ghost function ListAfter(keys: seq<Word>, op: Op, size: nat): seq<Word> {
    match op
    case Access(x, _, _, _) => Touched(keys, x, size)
    case Fresh(x) => Touched(keys, x, size)
    case Free(x) => Dropped(keys, x)
    case _ => keys
  }

  lemma UsesFirst(ops: seq<Op>, k: Word)
    requires ops != []
    ensures var op, rest := ops[0], ops[1..];
            && Others(Uses(ops), k) == Others(Uses(rest), k)
                + (if (op.Access? || op.Fresh?) && op.k != k then {op.k} else {})
            && (op.Access? || op.Fresh? ==> op.k in Uses(ops))
  {
  }

  /** One operation keeps k listed, and the bound for the operations that are left. */
  lemma StepResident(keys: seq<Word>, ops: seq<Op>, size: nat, k: Word)
    requires ops != [] && ops[0] != Free(k)
    requires Distinct(keys) && |keys| <= size && size > 0 && k in keys
    requires |Ahead(keys, k) + Others(Uses(ops), k)| < size
    ensures var next := ListAfter(keys, ops[0], size);
            k in next && |Ahead(next, k) + Others(Uses(ops[1..]), k)| < size
  {
    hide Touched, Dropped, Ahead, Uses, Others, Distinct;
    var op, rest := ops[0], ops[1..];
    var next := ListAfter(keys, op, size);
    UsesFirst(ops, k);
    if op.Access? || op.Fresh? {
      TouchedMembers(keys, op.k, size);
      if op.k != k {
        NotEvicted(keys, k, op.k, Uses(ops), size);
      }
      AheadAfterUse(keys, k, op.k, size);
    } else {
      if op.Free? {
        DroppedMembers(keys, op.k);
        AheadAfterDrop(keys, op.k, k);
      }
    }
    Fewer(Ahead(next, k) + Others(Uses(rest), k), Ahead(keys, k) + Others(Uses(ops), k));
  }

  /** Using another block puts at most that block ahead of k; using k puts nothing ahead of it. */
  lemma AheadAfterUse(keys: seq<Word>, k: Word, x: Word, size: nat)
    requires Distinct(keys) && |keys| <= size && size > 0 && k in keys
    requires x != k && x !in keys && |keys| == size ==> keys[size - 1] != k
    ensures Ahead(Touched(keys, x, size), k) <= Ahead(keys, k) + if x == k then {} else {x}
  {
    hide Distinct, Dropped;
    var rest := if x in keys then Dropped(keys, x) else if |keys| == size then Dropped(keys, keys[size - 1]) else keys;
    assert Touched(keys, x, size) == [x] + rest && ([x] + rest)[1..] == rest;
    if x != k {
      if x in keys {
        AheadAfterDrop(keys, x, k);
      } else if |keys| == size {
        AheadAfterDrop(keys, keys[size - 1], k);
      }
    }
  }

  /** The block pushed out is not k while fewer than size others are concerned. */
  lemma NotEvicted(keys: seq<Word>, k: Word, x: Word, uses: seq<Word>, size: nat)
    requires Distinct(keys) && |keys| <= size && size > 0 && k in keys && x != k && x in uses
    requires |Ahead(keys, k) + Others(uses, k)| < size
    ensures x !in keys && |keys| == size ==> keys[size - 1] != k
  {
    if x !in keys && |keys| == size && keys[size - 1] == k {
      AheadOfLast(keys);
      assert x !in Ahead(keys, k);
      assert |Ahead(keys, k) + {x}| == size;
      Fewer(Ahead(keys, k) + {x}, Ahead(keys, k) + Others(uses, k));
      assert false;
    }
  }

  lemma {:induction false} FewUses(ops: seq<Op>, k: Word)
    ensures |Others(Uses(ops), k)| <= |ops|
  {
    if ops != [] {
      FewUses(ops[1..], k);
      var x := if ops[0].Access? || ops[0].Fresh? then {ops[0].k} else {};
      Fewer(Others(Uses(ops), k), Others(Uses(ops[1..]), k) + x);
    }
  }

  /**
   * A block that was just loaded or created may be changed through its pointer after any operations that
   * use fewer than capacity other blocks and do not free it; marked itself, the change is never lost.
   */
  lemma HeldBlockSafe(s: State, first: Op, ops: seq<Op>, size: nat, off: nat, buf: seq<Byte>)
    requires Sound(s, size) && WellFormed(first) && (first.Access? || first.Fresh?)
    requires forall i | 0 <= i < |ops| :: WellFormed(ops[i]) && ops[i] != Free(first.k)
    requires |Others(Uses(ops), first.k)| < size && off + |buf| <= BLOCK_SIZE
    ensures Safe(Run(Step(s, first, size), ops, size), Edit(first.k, off, buf, first.k))
  {
    hide Touched, Distinct, PutBytes;
    var k, t := first.k, Step(s, first, size);
    StepKeys(s, first, size);
    TouchedMembers(s.keys, k, size);
    assert Ahead(t.keys, k) == {} && {} + Others(Uses(ops), k) == Others(Uses(ops), k);
    assert k in t.keys;
    StaysResident(t, ops, size, k);
  }

  /** In particular after fewer than capacity operations of any kind, such as those of one `alloc_block`. */
  lemma HeldBlockSoon(s: State, first: Op, ops: seq<Op>, size: nat, off: nat, buf: seq<Byte>)
    requires Sound(s, size) && WellFormed(first) && (first.Access? || first.Fresh?)
    requires forall i | 0 <= i < |ops| :: WellFormed(ops[i]) && ops[i] != Free(first.k)
    requires |ops| < size && off + |buf| <= BLOCK_SIZE
    ensures Safe(Run(Step(s, first, size), ops, size), Edit(first.k, off, buf, first.k))
  {
    FewUses(ops, first.k);
    HeldBlockSafe(s, first, ops, size, off, buf);
  }

  // ---- runs from a new volume ----

  /** An empty cache over a disk of zeros. */
  const NEW: State := State([], map[], map[])

  predicate Mentions(op: Op, k: Word) {
    !op.FlushAll? && op.k == k
  }

  /** Block k was fetched or made before step i, and at most size - 1 others were used since. */
  ghost predicate StillHeld(ops: seq<Op>, i: nat, j: nat, k: Word, size: nat)
    requires i <= |ops|
  {
    && j < i && (ops[j].Access? || ops[j].Fresh?) && ops[j].k == k
    && (forall m | j < m < i :: ops[m] != Free(k))
    && |Others(Uses(ops[j + 1..i]), k)| < size
  }

  /** What a caller can see to: no block number is made twice, and held blocks are changed soon and marked. */
  ghost predicate OrderlyAt(ops: seq<Op>, i: nat, size: nat)
    requires i < |ops|
  {
    match ops[i]
    case Fresh(k) => forall j | 0 <= j < i :: !Mentions(ops[j], k)
    case Edit(k, off, buf, mark) => mark == k && exists j: nat :: StillHeld(ops, i, j, k, size)
    case _ => true
  }

  ghost predicate Orderly(ops: seq<Op>, size: nat) {
    forall i | 0 <= i < |ops| :: WellFormed(ops[i]) && OrderlyAt(ops, i, size)
  }

  lemma {:induction false} RunSplit(s: State, a: seq<Op>, c: seq<Op>, size: nat)
    requires forall i | 0 <= i < |a| :: WellFormed(a[i])
    requires forall i | 0 <= i < |c| :: WellFormed(c[i])
    ensures Run(s, a + c, size) == Run(Run(s, a, size), c, size)
    decreases |a|
  {
    hide Step;
    if a == [] {
      assert a + c == c;
    } else {
      assert (a + c)[1..] == a[1..] + c;
      RunSplit(Step(s, a[0], size), a[1..], c, size);
    }
  }

  lemma {:induction false} SoundRun(s: State, ops: seq<Op>, size: nat)
    requires Sound(s, size) && forall i | 0 <= i < |ops| :: WellFormed(ops[i])
    ensures Sound(Run(s, ops, size), size)
    decreases |ops|
  {
    hide Step, Sound;
    if ops != [] {
      StepKeys(s, ops[0], size);
      SoundRun(Step(s, ops[0], size), ops[1..], size);
    }
  }

  /** A step leaves blocks it does not mention out of the cache, and their place on disk as it was. */
  lemma StepElsewhere(s: State, op: Op, size: nat, k: Word)
    requires Sound(s, size) && WellFormed(op) && !Mentions(op, k) && k !in s.entries
    ensures k !in Step(s, op, size).entries && OnDisk(Step(s, op, size).disk, k) == OnDisk(s.disk, k)
  {
    hide Dropped, PutBytes;
    if (op.Access? || op.Fresh?) && op.k !in s.entries && |s.keys| == size {
      assert s.keys[size - 1] in s.keys;
    }
  }

  lemma {:induction false} Elsewhere(s: State, ops: seq<Op>, size: nat, k: Word)
    requires Sound(s, size) && k !in s.entries
    requires forall i | 0 <= i < |ops| :: WellFormed(ops[i]) && !Mentions(ops[i], k)
    ensures k !in Run(s, ops, size).entries && OnDisk(Run(s, ops, size).disk, k) == OnDisk(s.disk, k)
    decreases |ops|
  {
    hide Step, Sound;
    if ops != [] {
      StepKeys(s, ops[0], size);
      StepElsewhere(s, ops[0], size, k);
      Elsewhere(Step(s, ops[0], size), ops[1..], size, k);
    }
  }

  lemma {:induction false} SafeFrom(s: State, ops: seq<Op>, size: nat)
    requires forall i | 0 <= i < |ops| :: WellFormed(ops[i])
    requires forall i | 0 <= i < |ops| :: Safe(Run(s, ops[..i], size), ops[i])
    ensures SafeRun(s, ops, size)
    decreases |ops|
  {
    hide Step, Safe;
    if ops != [] {
      var t, rest := Step(s, ops[0], size), ops[1..];
      forall i | 0 <= i < |rest| ensures Safe(Run(t, rest[..i], size), rest[i]) {
        assert ops[..i + 1][1..] == rest[..i];
        assert Safe(Run(s, ops[..i + 1], size), ops[i + 1]);
      }
      assert ops[..0] == [];
      SafeFrom(t, rest, size);
    }
  }

  /** Every step of an orderly run is safe. */
  lemma OrderlySafe(ops: seq<Op>, size: nat)
    requires size > 0 && Orderly(ops, size)
    ensures SafeRun(NEW, ops, size)
  {
    hide Step, Run, Sound, Uses, Others, PutBytes;
    assert Sound(NEW, size) by { EmptySound(size); }
    forall i | 0 <= i < |ops| ensures Safe(Run(NEW, ops[..i], size), ops[i]) {
      assert OrderlyAt(ops, i, size);
      match ops[i]
      case Fresh(k) =>
        Elsewhere(NEW, ops[..i], size, k);
      case Edit(k, off, buf, mark) =>
        var j: nat :| StillHeld(ops, i, j, k, size);
        assert ops[..i] == ops[..j] + ([ops[j]] + ops[j + 1..i]);
        RunSplit(NEW, ops[..j], [ops[j]] + ops[j + 1..i], size);
        SoundRun(NEW, ops[..j], size);
        RunFirst(Run(NEW, ops[..j], size), ops[j], ops[j + 1..i], size);
        HeldBlockSafe(Run(NEW, ops[..j], size), ops[j], ops[j + 1..i], size, off, buf);
      case _ =>
    }
    SafeFrom(NEW, ops, size);
  }

  lemma EmptySound(size: nat)
    requires size > 0
    ensures Sound(NEW, size) && Faithful(NEW)
  {
  }

  lemma RunFirst(s: State, op: Op, ops: seq<Op>, size: nat)
    requires WellFormed(op) && forall i | 0 <= i < |ops| :: WellFormed(ops[i])
    ensures Run(s, [op] + ops, size) == Run(Step(s, op, size), ops, size)
  {
    assert ([op] + ops)[1..] == ops;
  }

  /**
   * From a new volume, every orderly run reads and leaves behind what a memory of zeros would: the
   * condition is on the list of operations alone.
   */
  lemma OrderlyRun(ops: seq<Op>, size: nat)
    requires size > 0 && Orderly(ops, size)
    ensures var m: Word -> Block := _ => ZeroBlock();
            && (forall k :: Look(Run(NEW, ops, size), k) == MemRun(m, ops)(k))
            && (forall k :: OnDisk(Flushed(Run(NEW, ops, size)).disk, k) == MemRun(m, ops)(k))
  {
    OrderlySafe(ops, size);
    EmptySound(size);
    CacheInvisible(NEW, ops, size, _ => ZeroBlock());
  }

  // ---- a block number that is used again ----

  function Reads(list: seq<Word>): (ops: seq<Op>)
    ensures |ops| == |list| && forall i | 0 <= i < |ops| :: ops[i] == Access(list[i], false, 0, [])
  {
    seq(|list|, i requires 0 <= i < |list| => Access(list[i], false, 0, []))
  }

  lemma {:induction false} DroppedPrefix(keys: seq<Word>, x: Word, m: nat)
    requires m <= |keys| && x !in keys[..m]
    ensures m <= |Dropped(keys, x)| && Dropped(keys, x)[..m] == keys[..m]
  {
    if m > 0 {
      assert keys[..m][0] == keys[0] && keys[..m][1..] == keys[1..][..m - 1];
      DroppedPrefix(keys[1..], x, m - 1);
    }
  }

  /** Blocks read one after the other are at the front of the list, the last one first. */
  ghost predicate InFront(keys: seq<Word>, list: seq<Word>) {
    |list| <= |keys| && forall i | 0 <= i < |list| :: keys[i] == list[|list| - 1 - i]
  }

  lemma TouchedFront(keys: seq<Word>, list: seq<Word>, x: Word, size: nat)
    requires Distinct(keys) && |keys| <= size && |list| < size && InFront(keys, list) && x !in list
    ensures InFront(Touched(keys, x, size), list + [x])
  {
    hide Dropped;
    var m := |list|;
    assert forall i | 0 <= i < m :: keys[i] in list;
    var rest := keys;
    if x in keys {
      rest := Dropped(keys, x);
      DroppedPrefix(keys, x, m);
    } else if |keys| == size {
      rest := Dropped(keys, keys[size - 1]);
      assert keys[size - 1] !in keys[..m];
      DroppedPrefix(keys, keys[size - 1], m);
    }
    assert Touched(keys, x, size) == [x] + rest;
    forall i | 0 <= i <= m ensures ([x] + rest)[i] == (list + [x])[m - i] {
      assert i > 0 ==> rest[i - 1] == rest[..m][i - 1] == keys[..m][i - 1];
    }
  }

  /** A clean block leaves nothing on disk when others push it out. */
  lemma ReadElsewhere(s: State, x: Word, size: nat, k: Word)
    requires Sound(s, size) && x != k && (k in s.entries ==> !s.entries[k].dirty)
    ensures var t := Step(s, Access(x, false, 0, []), size);
            OnDisk(t.disk, k) == OnDisk(s.disk, k) && (k in t.entries ==> k in s.entries && !t.entries[k].dirty)
  {
    hide Dropped, PutBytes;
    if x !in s.entries && |s.keys| == size {
      assert s.keys[size - 1] in s.keys;
    }
  }

  lemma {:induction false} ReadAll(s: State, list: seq<Word>, size: nat, k: Word)
    requires Sound(s, size) && |list| <= size && Distinct(list) && k !in list
             && (k in s.entries ==> !s.entries[k].dirty)
    ensures var t := Run(s, Reads(list), size);
            && Sound(t, size) && InFront(t.keys, list) && OnDisk(t.disk, k) == OnDisk(s.disk, k)
            && (k in t.entries ==> !t.entries[k].dirty)
    decreases |list|
  {
    hide Step, Sound, Touched, InFront, Run;
    if list == [] {
      assert Reads(list) == [];
      RunNone(s, Reads(list), size, list);
    } else {
      var m := |list| - 1;
      var x, t := list[m], Run(s, Reads(list[..m]), size);
      ReadAll(s, list[..m], size, k);
      assert Reads(list) == Reads(list[..m]) + [Access(x, false, 0, [])];
      RunSplit(s, Reads(list[..m]), [Access(x, false, 0, [])], size);
      RunOne(t, Access(x, false, 0, []), size);
      StepKeys(t, Access(x, false, 0, []), size);
      ReadElsewhere(t, x, size, k);
      SoundKeys(t, size);
      assert list[..m] + [x] == list;
      TouchedFront(t.keys, list[..m], x, size);
    }
  }

  lemma SoundKeys(s: State, size: nat)
    requires Sound(s, size)
    ensures Distinct(s.keys) && |s.keys| <= size && forall k | k in s.entries :: k in s.keys
  {
  }

  lemma RunNone(s: State, ops: seq<Op>, size: nat, list: seq<Word>)
    requires ops == [] && list == []
    ensures Run(s, ops, size) == s && InFront(s.keys, list)
  {
  }

  lemma RunOne(s: State, op: Op, size: nat)
    requires WellFormed(op)
    ensures Run(s, [op], size) == Step(s, op, size)
  {
    RunFirst(s, op, [], size);
    assert [op] + [] == [op];
  }

  /** Reading as many other blocks as fit pushes a block out. */
  lemma PushedOut(s: State, list: seq<Word>, size: nat, k: Word)
    requires Sound(s, size) && |list| == size && Distinct(list) && k !in list
             && (k in s.entries ==> !s.entries[k].dirty)
    ensures var t := Run(s, Reads(list), size); Look(t, k) == OnDisk(s.disk, k)
  {
    hide Run;
    var t := Run(s, Reads(list), size);
    ReadAll(s, list, size, k);
    SoundKeys(t, size);
    assert forall i | 0 <= i < |t.keys| :: t.keys[i] in list;
  }

  /**
   * A block is made, written, freed and made again: it reads as zeros until enough other blocks are
   * read, and then as what was written before it was freed, whatever the capacity.
   */
  lemma CleanZeroLost(k: Word, buf: seq<Byte>, list: seq<Word>, size: nat)
    requires size > 0 && |list| == size && Distinct(list) && k !in list && |buf| <= BLOCK_SIZE
    ensures var s := Run(NEW, [Fresh(k), Access(k, true, 0, buf), Free(k), Fresh(k)], size);
            && Look(s, k) == ZeroBlock() && Look(Run(s, Reads(list), size), k) == PutBytes(ZeroBlock(), 0, buf)
  {
    hide PutBytes, Dropped;
    var ops := [Fresh(k), Access(k, true, 0, buf), Free(k), Fresh(k)];
    var s := Run(NEW, ops, size);
    EmptySound(size);
    SoundRun(NEW, ops, size);
    MadeTwice(k, buf, size);
    PushedOut(s, list, size, k);
  }

  lemma MadeTwice(k: Word, buf: seq<Byte>, size: nat)
    requires size > 0 && |buf| <= BLOCK_SIZE
    ensures var s := Run(NEW, [Fresh(k), Access(k, true, 0, buf), Free(k), Fresh(k)], size);
            && k in s.entries && s.entries[k] == Entry(ZeroBlock(), false)
            && OnDisk(s.disk, k) == PutBytes(ZeroBlock(), 0, buf)
  {
    hide PutBytes, Run;
    var a, c, d, e := Fresh(k), Access(k, true, 0, buf), Free(k), Fresh(k);
    RunFirst(NEW, a, [c, d, e], size);
    var s1 := Step(NEW, a, size);
    assert [a] + [c, d, e] == [a, c, d, e];
    RunFirst(s1, c, [d, e], size);
    assert [c] + [d, e] == [c, d, e];
    var s2 := Step(s1, c, size);
    RunFirst(s2, d, [e], size);
    assert [d] + [e] == [d, e];
    RunOne(Step(s2, d, size), e, size);
    assert Dropped([k], k) == [];
  }

  // ---- the linked cache runs the same operations ----

  /** A block is changed through its pointer only while it is cached: all that the heap objects need. */
  ghost predicate Held(s: State, op: Op) {
    op.Edit? ==> op.k in s.entries
  }

  ghost predicate HeldRun(s: State, ops: seq<Op>, size: nat)
    requires forall i | 0 <= i < |ops| :: WellFormed(ops[i])
    decreases |ops|
  {
    ops == [] || (Held(s, ops[0]) && HeldRun(Step(s, ops[0], size), ops[1..], size))
  }

  lemma {:induction false} SafeHeld(s: State, ops: seq<Op>, size: nat)
    requires (forall i | 0 <= i < |ops| :: WellFormed(ops[i])) && SafeRun(s, ops, size)
    ensures HeldRun(s, ops, size)
    decreases |ops|
  {
    if ops != [] {
      SafeHeld(Step(s, ops[0], size), ops[1..], size);
    }
  }

  method Perform(c: BlockCache, op: Op)
    requires c.Valid() && WellFormed(op) && Held(c.View(), op)
    modifies c`chain, c`used, c`pool, c`lookup, c`disk
    modifies c.nodes, c.head`next, c.head`prev, c.tail`next, c.tail`prev
    ensures c.Valid() && c.View() == Step(old(c.View()), op, c.size)
  {
    hide BlockCache.Linked, BlockCache.Listed, BlockCache.Books, Indices, Dropped, Accessed, Inserted, Removed;
    hide Edited, Flushed, PutBytes;
    match op
    case Access(k, dirty, off, buf) =>
      var block := c.GetBlock(k, dirty, off, buf);
    case Fresh(k) =>
      c.Insert(k, ZeroBlock(), false);
    case Edit(k, off, buf, mark) =>
      c.HasEntry(k);
      c.Edit(k, off, buf, mark);
    case Free(k) =>
      c.Remove(k);
    case FlushAll =>
      c.Flush();
  }

  /** Every run of the linked cache, safe or not, ends in the state that the values say. */
  method PerformAll(c: BlockCache, ops: seq<Op>)
    requires c.Valid() && forall i | 0 <= i < |ops| :: WellFormed(ops[i])
    requires HeldRun(c.View(), ops, c.size)
    modifies c`chain, c`used, c`pool, c`lookup, c`disk
    modifies c.nodes, c.head`next, c.head`prev, c.tail`next, c.tail`prev
    ensures c.Valid() && c.View() == Run(old(c.View()), ops, c.size)
  {
    hide BlockCache.Linked, Step, Held;
    for i := 0 to |ops|
      invariant c.Valid() && HeldRun(c.View(), ops[i..], c.size)
      invariant Run(c.View(), ops[i..], c.size) == Run(old(c.View()), ops, c.size)
    {
      assert ops[i..][1..] == ops[i + 1..];
      Perform(c, ops[i]);
    }
  }

  /** Every orderly run of a new linked cache reads what a memory of zeros would. */
  method PerformOrderly(c: BlockCache, ops: seq<Op>)
    requires c.Valid() && c.View() == NEW && Orderly(ops, c.size)
    modifies c`chain, c`used, c`pool, c`lookup, c`disk
    modifies c.nodes, c.head`next, c.head`prev, c.tail`next, c.tail`prev
    ensures c.Valid() && forall k :: Look(c.View(), k) == MemRun(_ => ZeroBlock(), ops)(k)
  {
    hide BlockCache.Linked, BlockCache.Listed, BlockCache.Books, Step, OrderlyAt, BlockCache.View;
    OrderlySafe(ops, c.size);
    SafeHeld(NEW, ops, c.size);
    OrderlyRun(ops, c.size);
    PerformAll(c, ops);
  }
}
