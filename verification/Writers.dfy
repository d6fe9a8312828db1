/**
 * Many handles writing one file.  `write` first looks at the size under the shared lock and, when it
 * must grow the file, gives that lock up and takes the exclusive one; other writers may run in
 * between.  A schedule is any sequence of such phases.
 */
module Writers {
  import opened Bytes
  import opened Volume
  import opened Handle
  import opened FileBytes
  import opened OpenFiles

  datatype Request = Request(buf: seq<Byte>, offset: nat, append: bool)

  /** A write that took effect: where it went and whether it was an append. */
  datatype Entry = Entry(start: nat, buf: seq<Byte>, append: bool)

  datatype Phase =
    | Begin(h: FileStatus, req: Request)              // shared lock: overwrite, or decide to grow
    | Commit(h: FileStatus)                           // exclusive lock
    | Read(h: FileStatus, offset: nat, size: nat)     // shared lock

  /** The file after the logged writes, in the order in which they held the lock. */
  function Replay(bytes: seq<Byte>, log: seq<Entry>): seq<Byte> {
    if log == [] then bytes
    else Overlay(Replay(bytes, log[..|log| - 1]), log[|log| - 1].start, log[|log| - 1].buf)
  }

  /** Every append went to the end of the file as it was when its turn came. */
  ghost predicate AppendsAtEnd(bytes: seq<Byte>, log: seq<Entry>) {
    forall i | 0 <= i < |log| && log[i].append :: log[i].start == |Replay(bytes, log[..i])|
  }

  lemma ReplayStep(bytes: seq<Byte>, log: seq<Entry>, e: Entry)
    ensures Replay(bytes, log + [e]) == Overlay(Replay(bytes, log), e.start, e.buf)
  {
    assert (log + [e])[..|log|] == log;
  }

  /** The size never shrinks. */
  lemma {:induction false} SizeGrows(bytes: seq<Byte>, log: seq<Entry>, i: nat)
    requires i <= |log|
    ensures |Replay(bytes, log[..i])| <= |Replay(bytes, log)|
    decreases |log|
  {
    if i < |log| {
      var short := log[..|log| - 1];
      assert short[..i] == log[..i];
      SizeGrows(bytes, short, i);
    } else {
      assert log[..i] == log;
    }
  }

  /** Two appends occupy disjoint ranges, in lock order. */
  lemma AppendsDisjoint(bytes: seq<Byte>, log: seq<Entry>, i: nat, j: nat)
    requires AppendsAtEnd(bytes, log) && i < j < |log| && log[i].append && log[j].append
    ensures log[i].start + |log[i].buf| <= log[j].start
  {
    var upto := log[..j];
    assert upto[..i + 1] == log[..i + 1];
    SizeGrows(bytes, upto, i + 1);
    assert log[..i + 1][..i] == log[..i];
  }

  function Concat(log: seq<Entry>): seq<Byte> {
    if log == [] then [] else Concat(log[..|log| - 1]) + log[|log| - 1].buf
  }

  // ---- the simple view of a run ----

  /**
   * Requests that wait to grow the file, the writes that took effect, what reads returned, whether a
   * write went astray, how many blocks the file has, and how many allocations were refused.
   */
  datatype View = View(pending: map<FileStatus, Request>, log: seq<Entry>, seen: seq<seq<Byte>>, stray: bool,
                       blocks: nat, refused: nat)

  /** What a read returns of a file: its bytes, and zeros where the first chunk runs past the end. */
  function Seen(bytes: seq<Byte>, offset: nat, size: nat): seq<Byte> {
    seq(ReadLen(|bytes|, offset, size), j requires 0 <= j => if offset + j < |bytes| then bytes[offset + j] else 0)
  }

  /** Where a write goes in a file of the given size. */
  function Target(size: nat, req: Request): nat {
    if req.append then size else req.offset
  }

  /** The write would keep the size out of the last block of the 32-bit range. */
  predicate Fits(size: nat, req: Request) {
    size < LAST_BLOCK && Target(size, req) <= LAST_BLOCK && Target(size, req) + |req.buf| < TWO_32
  }

  /** A phase can be taken: the handle is free, or it is the one waiting to commit. */
  predicate Enabled(handles: seq<FileStatus>, size: nat, v: View, p: Phase) {
    && !v.stray
    && match p
       case Begin(h, req) => h in handles && h !in v.pending && req.buf != []
       case Commit(h) => h in v.pending && Fits(size, v.pending[h])
       case Read(h, _, _) => h in handles && h !in v.pending
  }

  /** The shared phase: a write inside the file takes effect at once, any other waits. */
  ghost predicate Begun(size: nat, v: View, h: FileStatus, req: Request, w: View) {
    if Target(size, req) + |req.buf| > size then w == v.(pending := v.pending[h := req])
    else w == v.(log := v.log + [Entry(Target(size, req), req.buf, req.append)])
  }

  /**
   * The exclusive phase: the bytes take effect where the size found then puts them.  Only a refused
   * allocation makes that fewer than all bytes, or nothing but zeros up to some size before the target;
   * and only a target without a block leads a write astray.
   */
  ghost predicate Committed(size: nat, v: View, h: FileStatus, r: Outcome, w: View)
    requires h in v.pending && size < LAST_BLOCK
  {
    var req := v.pending[h];
    var start := Target(size, req);
    && w.refused == v.refused + (if r.NoSpace? || (r.Wrote? && r.n < |req.buf|) then 1 else 0)
    && (r.Stray? <==> w.refused == v.refused && !HasTarget(size, v.blocks, start))
    && (r.Wrote? ==>
          w.blocks == WrittenBlocks(GrownTo(size, start), GrownBlocks(size, v.blocks, start), start, |req.buf|, r.n))
    && w.pending == v.pending - {h} && w.stray == r.Stray? && w.seen == v.seen
    && |w.log| == |v.log| + 1 && v.log == w.log[..|v.log|]
    && var e := w.log[|v.log|];
    if r.Wrote? then 0 < r.n <= |req.buf| && e == Entry(Target(size, req), req.buf[..r.n], req.append)
    else e.buf == [] && !e.append && size <= e.start && (e.start == size || e.start < Target(size, req))
  }

  /** What one phase makes of the view; the size is that of the file as logged so far. */
  ghost predicate Next(bytes: seq<Byte>, handles: seq<FileStatus>, v: View, p: Phase, w: View) {
    var size := |Replay(bytes, v.log)|;
    if !Enabled(handles, size, v, p) then w == v
    else match p
         case Begin(h, req) => Begun(size, v, h, req, w)
         case Commit(h) => exists r :: Committed(size, v, h, r, w)
         case Read(_, offset, count) => w == v.(seen := v.seen + [Seen(Replay(bytes, v.log), offset, count)])
  }

  ghost predicate Follows(bytes: seq<Byte>, handles: seq<FileStatus>, schedule: seq<Phase>, trace: seq<View>) {
    && |trace| == |schedule| + 1
    && forall i | 0 <= i < |schedule| :: Next(bytes, handles, trace[i], schedule[i], trace[i + 1])
  }

  lemma ConcatStep(log: seq<Entry>, e: Entry)
    ensures Concat(log + [e]) == Concat(log) + e.buf
  {
    assert (log + [e])[..|log|] == log;
  }

  /** One phase of a run in which every request is an append. */
  lemma AppendPhase(bytes: seq<Byte>, handles: seq<FileStatus>, v: View, p: Phase, w: View)
    requires Next(bytes, handles, v, p, w) && (p.Begin? ==> p.req.append)
    requires (forall h | h in v.pending :: v.pending[h].append) && Replay(bytes, v.log) == bytes + Concat(v.log)
    ensures (forall h | h in w.pending :: w.pending[h].append) && Replay(bytes, w.log) == bytes + Concat(w.log)
  {
    hide Overlay, Replay, Concat;
    var size := |Replay(bytes, v.log)|;
    if Enabled(handles, size, v, p) && p.Commit? {
      var r :| Committed(size, v, p.h, r, w);
      var e := w.log[|v.log|];
      assert w.log == v.log + [e] && e.start == size;
      ReplayStep(bytes, v.log, e);
      ConcatStep(v.log, e);
      OverlayAppend(Replay(bytes, v.log), e.buf);
      assert bytes + Concat(v.log) + e.buf == bytes + (Concat(v.log) + e.buf);
    }
  }

  /**
   * In every run in which all writers append, the file is at all times the concatenation of what was
   * written, in lock order.
   */
  lemma {:induction false} AppendRun(bytes: seq<Byte>, handles: seq<FileStatus>, schedule: seq<Phase>,
      trace: seq<View>, k: nat)
    requires Follows(bytes, handles, schedule, trace)
             && trace[0] == View(map[], [], [], false, trace[0].blocks, trace[0].refused)
    requires k <= |schedule|
    requires forall i | 0 <= i < |schedule| :: schedule[i].Begin? ==> schedule[i].req.append
    ensures Replay(bytes, trace[k].log) == bytes + Concat(trace[k].log)
    ensures forall h | h in trace[k].pending :: trace[k].pending[h].append
  {
    hide Next;
    if k == 0 {
      assert bytes + [] == bytes;
    } else {
      AppendRun(bytes, handles, schedule, trace, k - 1);
      AppendPhase(bytes, handles, trace[k - 1], schedule[k - 1], trace[k]);
    }
  }

  /** A phase in which no allocation is refused and no write lacks its block writes its buffer whole. */
  lemma WholePhase(bytes: seq<Byte>, handles: seq<FileStatus>, v: View, p: Phase, w: View)
    requires Next(bytes, handles, v, p, w)
    ensures w.refused >= v.refused
    ensures var size := |Replay(bytes, v.log)|;
            p.Commit? && Enabled(handles, size, v, p) && w.refused == v.refused ==>
              var req := v.pending[p.h];
              if HasTarget(size, v.blocks, Target(size, req))
              then w.log == v.log + [Entry(Target(size, req), req.buf, req.append)] && !w.stray
              else w.stray
  {
    hide Overlay, Replay, HasTarget, GrownTo, GrownBlocks, WrittenBlocks;
    var size := |Replay(bytes, v.log)|;
    if Enabled(handles, size, v, p) && p.Commit? {
      var r :| Committed(size, v, p.h, r, w);
      var e := w.log[|v.log|];
      assert w.log == v.log + [e];
      var req := v.pending[p.h];
      assert r == Wrote(|req.buf|) ==> req.buf[..r.n] == req.buf;
    }
  }

  /** The buffers of the requests that were committed in the first k phases, in lock order. */
  ghost function Joined(bytes: seq<Byte>, handles: seq<FileStatus>, schedule: seq<Phase>, trace: seq<View>,
      k: nat): seq<Byte>
    requires k <= |schedule| < |trace|
  {
    if k == 0 then []
    else
      var v, p := trace[k - 1], schedule[k - 1];
      Joined(bytes, handles, schedule, trace, k - 1)
      + if p.Commit? && Enabled(handles, |Replay(bytes, v.log)|, v, p) then v.pending[p.h].buf else []
  }

  lemma {:induction false} RefusedGrows(bytes: seq<Byte>, handles: seq<FileStatus>, schedule: seq<Phase>,
                                        trace: seq<View>, k: nat, m: nat)
    requires Follows(bytes, handles, schedule, trace) && k <= m <= |schedule|
    ensures trace[k].refused <= trace[m].refused
    decreases m
  {
    hide Next;
    if k < m {
      RefusedGrows(bytes, handles, schedule, trace, k, m - 1);
      WholePhase(bytes, handles, trace[m - 1], schedule[m - 1], trace[m]);
    }
  }

  /**
   * In every run in which all writers append and no allocation is refused, no write goes astray, and the
   * file is at all times what it was followed by the whole buffers, in lock order.
   */
  lemma {:induction false} WholeAppendRun(bytes: seq<Byte>, handles: seq<FileStatus>, schedule: seq<Phase>,
                                          trace: seq<View>, k: nat)
    requires Follows(bytes, handles, schedule, trace) && k <= |schedule|
    requires trace[0] == View(map[], [], [], false, trace[0].blocks, trace[0].refused)
    requires forall i | 0 <= i < |schedule| :: schedule[i].Begin? ==> schedule[i].req.append
    requires trace[k].refused == trace[0].refused
    ensures Replay(bytes, trace[k].log) == bytes + Joined(bytes, handles, schedule, trace, k) && !trace[k].stray
  {
    hide Next, Replay, Overlay, Concat, Enabled;
    if k == 0 {
      assert Replay(bytes, trace[0].log) == bytes + Concat(trace[0].log) by {
        AppendRun(bytes, handles, schedule, trace, 0);
      }
      assert Concat([]) == [] by { ConcatNone(); }
    } else {
      RefusedGrows(bytes, handles, schedule, trace, 0, k - 1);
      RefusedGrows(bytes, handles, schedule, trace, k - 1, k);
      WholeAppendRun(bytes, handles, schedule, trace, k - 1);
      AppendRun(bytes, handles, schedule, trace, k - 1);
      WholeAppend(bytes, handles, trace[k - 1], schedule[k - 1], trace[k]);
      Regrouped(bytes, Joined(bytes, handles, schedule, trace, k - 1),
                Joined(bytes, handles, schedule, trace, k)[|Joined(bytes, handles, schedule, trace, k - 1)|..]);
    }
  }

  lemma ConcatNone()
    ensures Concat([]) == []
  {
  }

  lemma WholeAppend(bytes: seq<Byte>, handles: seq<FileStatus>, v: View, p: Phase, w: View)
    requires Next(bytes, handles, v, p, w) && (p.Begin? ==> p.req.append) && !v.stray && w.refused == v.refused
    requires forall h | h in v.pending :: v.pending[h].append
    ensures !w.stray
    ensures var size := |Replay(bytes, v.log)|;
            Replay(bytes, w.log) == Replay(bytes, v.log)
                                    + if p.Commit? && Enabled(handles, size, v, p) then v.pending[p.h].buf else []
  {
    hide Overlay, Replay, GrownTo, GrownBlocks, WrittenBlocks, Committed;
    var file := Replay(bytes, v.log);
    if p.Commit? && Enabled(handles, |file|, v, p) {
      WholePhase(bytes, handles, v, p, w);
      var req := v.pending[p.h];
      ReplayStep(bytes, v.log, Entry(|file|, req.buf, req.append));
      OverlayAppend(file, req.buf);
    }
  }

  // ---- writers that overlap in the shared phase ----

  /** The chunks in which a write inside the file reaches its blocks. */
  function Pieces(start: nat, buf: seq<Byte>): seq<Entry>
    decreases |buf|
  {
    var csz := Min(|buf|, BLOCK_SIZE - start % BLOCK_SIZE);
    if buf == [] then [] else [Entry(start, buf[..csz], false)] + Pieces(start + csz, buf[csz..])
  }

  ghost predicate Touches(e: Entry, i: nat) {
    e.start <= i < e.start + |e.buf|
  }

  /** The entry writes, at each of its places, what the write w puts there. */
  ghost predicate PieceOf(e: Entry, w: Entry) {
    forall i: nat | Touches(e, i) :: Touches(w, i) && e.buf[i - e.start] == w.buf[i - w.start]
  }

  ghost predicate PieceOfOne(e: Entry, writes: seq<Entry>) {
    exists j | 0 <= j < |writes| :: PieceOf(e, writes[j])
  }

  /** The entries are pieces of the writes, in any order, and no byte of a write is left out. */
  ghost predicate Merged(writes: seq<Entry>, m: seq<Entry>) {
    && (forall k | 0 <= k < |m| :: PieceOfOne(m[k], writes))
    && (forall j, i: nat | 0 <= j < |writes| && Touches(writes[j], i) :: exists k | 0 <= k < |m| :: Touches(m[k], i))
  }

  ghost predicate Inside(log: seq<Entry>, size: nat) {
    forall k | 0 <= k < |log| :: log[k].start + |log[k].buf| <= size
  }

  /** Each byte after a log of writes inside the file is from an entry that touches it, if there is one. */
  lemma {:induction false} ReplayAt(bytes: seq<Byte>, log: seq<Entry>, i: nat)
    requires Inside(log, |bytes|) && i < |bytes|
    ensures |Replay(bytes, log)| == |bytes|
    ensures (forall k | 0 <= k < |log| :: !Touches(log[k], i)) ==> Replay(bytes, log)[i] == bytes[i]
    ensures (exists k | 0 <= k < |log| :: Touches(log[k], i)) ==>
              exists k | 0 <= k < |log| :: Touches(log[k], i) && Replay(bytes, log)[i] == log[k].buf[i - log[k].start]
  {
    if log != [] {
      var short, e := log[..|log| - 1], log[|log| - 1];
      ReplayAt(bytes, short, i);
      assert forall k | 0 <= k < |short| :: short[k] == log[k];
      if Touches(e, i) {
        assert Replay(bytes, log)[i] == e.buf[i - e.start];
      }
    }
  }

  /**
   * However the chunks of writes inside the file interleave, each byte ends up as before if no write
   * touches it, and otherwise as one of the writes that touch it has it.
   */
  lemma SharedBytes(bytes: seq<Byte>, writes: seq<Entry>, m: seq<Entry>, i: nat)
    requires Inside(m, |bytes|) && Merged(writes, m) && i < |bytes|
    ensures |Replay(bytes, m)| == |bytes|
    ensures (forall j | 0 <= j < |writes| :: !Touches(writes[j], i)) ==> Replay(bytes, m)[i] == bytes[i]
    ensures (exists j | 0 <= j < |writes| :: Touches(writes[j], i)) ==>
              exists j | 0 <= j < |writes| ::
                  Touches(writes[j], i) && Replay(bytes, m)[i] == writes[j].buf[i - writes[j].start]
  {
    hide Replay, Overlay;
    ReplayAt(bytes, m, i);
    if exists k | 0 <= k < |m| :: Touches(m[k], i) {
      var k :| 0 <= k < |m| && Touches(m[k], i) && Replay(bytes, m)[i] == m[k].buf[i - m[k].start];
      var j :| 0 <= j < |writes| && PieceOf(m[k], writes[j]);
      assert Touches(writes[j], i);
    }
  }

  /**
   * Writes to disjoint ranges give the same file however their chunks interleave: as if they had run
   * one after another.
   */
  lemma SharedDisjoint(bytes: seq<Byte>, writes: seq<Entry>, m: seq<Entry>)
    requires Inside(m, |bytes|) && Inside(writes, |bytes|) && Merged(writes, m)
    requires forall j, k, i: nat | 0 <= j < |writes| && 0 <= k < |writes| && Touches(writes[j], i)
             && Touches(writes[k], i) :: j == k
    ensures Replay(bytes, m) == Replay(bytes, writes)
  {
    hide Replay, Overlay, Merged;
    if bytes == [] {
      ReplayEmpty(m);
      ReplayEmpty(writes);
    } else {
      forall i: nat | i < |bytes|
        ensures |Replay(bytes, m)| == |bytes| == |Replay(bytes, writes)|
                  && Replay(bytes, m)[i] == Replay(bytes, writes)[i]
      {
        SharedBytes(bytes, writes, m, i);
        ReplayAt(bytes, writes, i);
      }
      assert |Replay(bytes, m)| == |bytes| by { ReplayAt(bytes, m, 0); }
      assert |Replay(bytes, writes)| == |bytes| by { ReplayAt(bytes, writes, 0); }
    }
  }

  lemma {:induction false} ReplayEmpty(log: seq<Entry>)
    requires Inside(log, 0)
    ensures Replay([], log) == []
  {
    if log != [] {
      ReplayEmpty(log[..|log| - 1]);
    }
  }

  /** The entries cut up one write. */
  ghost predicate Cuts(w: Entry, m: seq<Entry>) {
    && (forall k | 0 <= k < |m| :: PieceOf(m[k], w))
    && (forall i: nat | Touches(w, i) :: exists k | 0 <= k < |m| :: Touches(m[k], i))
  }

  lemma CutsMore(w: Entry, first: Entry, tail: Entry, rest: seq<Entry>)
    requires PieceOf(first, w) && PieceOf(tail, w) && Cuts(tail, rest)
    requires forall i: nat | Touches(w, i) :: Touches(first, i) || Touches(tail, i)
    ensures Cuts(w, [first] + rest)
  {
    var m := [first] + rest;
    forall k | 0 <= k < |m| ensures PieceOf(m[k], w) {
      if k > 0 {
        assert PieceOf(rest[k - 1], tail);
      }
    }
    forall i: nat | Touches(w, i) ensures exists k | 0 <= k < |m| :: Touches(m[k], i) {
      if Touches(first, i) {
        assert m[0] == first;
      } else {
        var k :| 0 <= k < |rest| && Touches(rest[k], i);
        assert m[k + 1] == rest[k];
      }
    }
  }

  lemma {:induction false} PiecesCut(w: Entry)
    ensures Cuts(w, Pieces(w.start, w.buf)) && Inside(Pieces(w.start, w.buf), w.start + |w.buf|)
    decreases |w.buf|
  {
    hide Cuts;
    if w.buf == [] {
      NothingCut(w);
    } else {
      var csz := Min(|w.buf|, BLOCK_SIZE - w.start % BLOCK_SIZE);
      var tail := Entry(w.start + csz, w.buf[csz..], false);
      PiecesCut(tail);
      CutsMore(w, Entry(w.start, w.buf[..csz], false), tail, Pieces(tail.start, tail.buf));
    }
  }

  lemma NothingCut(w: Entry)
    requires w.buf == []
    ensures Cuts(w, [])
  {
  }

  ghost predicate ChunkOf(e: Entry, w: Entry) {
    e in Pieces(w.start, w.buf)
  }

  lemma ChunkIsPiece(e: Entry, w: Entry)
    requires ChunkOf(e, w)
    ensures PieceOf(e, w)
  {
    hide PieceOf;
    PiecesCut(w);
  }

  lemma ChunkTouches(w: Entry, i: nat) returns (e: Entry)
    requires Touches(w, i)
    ensures ChunkOf(e, w) && Touches(e, i)
  {
    PiecesCut(w);
    var c := Pieces(w.start, w.buf);
    var k :| 0 <= k < |c| && Touches(c[k], i);
    e := c[k];
  }

  /** Any mixture of the chunks of several writes is a merge of them. */
  lemma ChunksMerged(writes: seq<Entry>, m: seq<Entry>)
    requires forall k | 0 <= k < |m| :: exists j | 0 <= j < |writes| :: ChunkOf(m[k], writes[j])
    requires forall j, e | 0 <= j < |writes| && ChunkOf(e, writes[j]) :: e in m
    ensures Merged(writes, m)
  {
    forall k | 0 <= k < |m| ensures PieceOfOne(m[k], writes) {
      var j :| 0 <= j < |writes| && ChunkOf(m[k], writes[j]);
      ChunkIsPiece(m[k], writes[j]);
    }
    forall j, i: nat | 0 <= j < |writes| && Touches(writes[j], i) ensures exists k | 0 <= k < |m| :: Touches(m[k], i) {
      var e := ChunkTouches(writes[j], i);
      assert e in m;
      var k :| 0 <= k < |m| && m[k] == e;
      assert Touches(m[k], i);
    }
  }

  class Session {
    const file: OpenFile
    var pending: map<FileStatus, Request>
    var log: seq<Entry>
    var seen: seq<seq<Byte>>
    /** A write went to a block outside the file; what happens afterwards is not described. */
    var stray: bool
    ghost const bytes0: seq<Byte>

    constructor (file: OpenFile)
      requires file.Valid()
      ensures Valid() && this.file == file && Now() == View(map[], [], [], false, file.inode.Count(), file.fs.refused)
    {
      this.file := file;
      pending := map[];
      log := [];
      seen := [];
      stray := false;
      bytes0 := file.Bytes();
    }

    /** The file is in order and its bytes are the logged writes replayed. */
    ghost predicate Valid()
      reads this, file, file.fs, file.fs.files, file.inode, file.handles
    {
      && file.Valid()
      && (forall h | h in pending :: h in file.handles && pending[h].buf != [])
      && file.Bytes() == Replay(bytes0, log)
      && AppendsAtEnd(bytes0, log)
    }

    method Record(e: Entry)
      requires file.Valid() && AppendsAtEnd(bytes0, log) && file.Bytes() == Overlay(Replay(bytes0, log), e.start, e.buf)
      requires e.append ==> e.start == |Replay(bytes0, log)|
      requires forall h | h in pending :: h in file.handles && pending[h].buf != []
      modifies this`log
      ensures Valid() && log == old(log) + [e]
    {
      hide OpenFile.Open, Covered, Flat, Replay, Overlay;
      ReplayStep(bytes0, log, e);
      forall i | 0 <= i <= |log| ensures (log + [e])[..i] == log[..i] {}
      log := log + [e];
    }

    ghost function Now(): View
      reads this, file.fs, file.inode
    {
      View(pending, log, seen, stray, file.inode.Count(), file.fs.refused)
    }

    /** The shared phase: refresh the handle, then overwrite in place or remember to grow. */
    method DoBegin(h: FileStatus, req: Request)
      requires Valid() && h in file.handles && h !in pending && req.buf != []
      modifies this`pending, this`log, file.fs`blocks, file.fs`dirty, h
      ensures Valid() && Begun(old(file.inode.iSize), old(Now()), h, req, Now())
    {
      hide OpenFile.Open, Covered, Flat, Replay, Overlay, AppendsAtEnd;
      var err := file.Refresh(h);
      var start := file.StartOf(req.offset, req.append);
      if start + |req.buf| > file.inode.iSize {
        pending := pending[h := req];
      } else {
        file.Overwrite(h, req.buf, start);
        Record(Entry(start, req.buf, req.append));
      }
    }

    /**
     * The exclusive phase.  An append takes the size it finds now, not the one it saw in the shared
     * phase.  One entry is logged: the bytes written, or the zeros a failed attempt left behind.
     */
    method DoCommit(h: FileStatus) returns (r: Outcome)
      requires Valid() && h in pending && Fits(file.inode.iSize, pending[h]) && !stray
      modifies this`pending, this`log, this`stray, file.fs`blocks, file.fs`dirty, file.fs`owner, file.fs`refused
      modifies file.inode`block, file.inode`iBlocks, file.inode`iSize
      modifies h`blockId, h`blockIdInFile, h`ind0, h`ind1, h`ind2, file.handles`cacheUpdateFlag
      ensures Valid() && Committed(old(file.inode.iSize), old(Now()), h, r, Now())
    {
      hide OpenFile.Open, Covered, Flat, Replay, Overlay, AppendsAtEnd;
      hide HasTarget, GrownTo, GrownBlocks, WrittenBlocks;
      var req := pending[h];
      var start := file.StartOf(req.offset, req.append);
      r := file.WriteExclusive(h, req.buf, req.offset, req.append);
      pending := pending - {h};
      stray := r.Stray?;
      Record(if r.Wrote? then Entry(start, req.buf[..r.n], req.append) else Entry(file.inode.iSize, [], false));
    }

    /** A read under the shared lock. */
    method DoRead(h: FileStatus, offset: nat, size: nat)
      requires Valid() && h in file.handles
      modifies h, this`seen
      ensures Valid() && Now() == old(Now()).(seen := old(seen) + [Seen(Replay(bytes0, log), offset, size)])
    {
      hide OpenFile.Open, Covered, Flat, Replay, AppendsAtEnd;
      var err, buf := file.CopyToBuf(h, offset, size);
      assert buf == Seen(file.Bytes(), offset, size);
      seen := seen + [buf];
    }

    /**
     * Any schedule of phases, by any number of handles, leaves the file equal to the logged writes
     * replayed in lock order, with every append at the end it found.
     */
    method Run(schedule: seq<Phase>) returns (ghost trace: seq<View>)
      requires Valid()
      modifies this, file.fs`blocks, file.fs`dirty, file.fs`owner, file.fs`refused
      modifies file.inode`block, file.inode`iBlocks, file.inode`iSize, file.handles
      ensures Valid() && |file.Bytes()| >= |old(file.Bytes())|
      ensures Follows(bytes0, file.handles, schedule, trace) && trace[0] == old(Now()) && trace[|schedule|] == Now()
    {
      hide OpenFile.Open, Covered, Flat, Replay, AppendsAtEnd, Begun, Committed;
      trace := [Now()];
      ghost var handles := file.handles;
      for i := 0 to |schedule|
        invariant Valid() && old(log) <= log && |trace| == i + 1 && trace[0] == old(Now()) && trace[i] == Now()
        invariant forall j | 0 <= j < i :: Next(bytes0, handles, trace[j], schedule[j], trace[j + 1])
      {
        ghost var v := Now();
        Take(schedule[i]);
        assert Next(bytes0, handles, v, schedule[i], Now());
        trace := trace + [Now()];
      }
      assert log[..|old(log)|] == old(log);
      SizeGrows(bytes0, log, |old(log)|);
    }

    /** One phase, if it can be taken. */
    method Take(p: Phase)
      requires Valid()
      modifies this, file.fs`blocks, file.fs`dirty, file.fs`owner, file.fs`refused
      modifies file.inode`block, file.inode`iBlocks, file.inode`iSize, file.handles
      ensures Valid() && old(log) <= log && Next(bytes0, file.handles, old(Now()), p, Now())
    {
      hide OpenFile.Open, Covered, Flat, Replay, AppendsAtEnd;
      if stray { return; }
      match p
      case Begin(h, req) =>
        if h in file.handles && h !in pending && req.buf != [] {
          DoBegin(h, req);
        }
      case Commit(h) =>
        if h in pending && Fits(file.inode.iSize, pending[h]) {
          var r := DoCommit(h);
        }
      case Read(h, offset, size) =>
        if h in file.handles && h !in pending {
          DoRead(h, offset, size);
        }
    }
  }
}
