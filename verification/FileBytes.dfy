/** A file as one sequence of bytes: the blocks laid end to end, cut at the file size. */
module FileBytes {
  import opened Bytes

  function Zeros(n: nat): (z: seq<Byte>)
    ensures |z| == n && forall j | 0 <= j < n :: z[j] == 0
  {
    seq(n, _ => 0)
  }

  /** The blocks laid end to end. */
  function Flat(c: seq<Block>): (s: seq<Byte>)
    ensures |s| == BLOCK_SIZE * |c|
    ensures forall i | 0 <= i < |s| :: s[i] == c[i / BLOCK_SIZE][i % BLOCK_SIZE]
  {
    seq(BLOCK_SIZE * |c|, i requires 0 <= i < BLOCK_SIZE * |c| => c[i / BLOCK_SIZE][i % BLOCK_SIZE])
  }

  /** buf written over s from pos on. */
  function Splice(s: seq<Byte>, pos: nat, buf: seq<Byte>): (r: seq<Byte>)
    requires pos + |buf| <= |s|
    ensures |r| == |s|
    ensures forall i | 0 <= i < |s| :: r[i] == if pos <= i < pos + |buf| then buf[i - pos] else s[i]
  {
    s[..pos] + buf + s[pos + |buf|..]
  }

  /** What a write of buf at off makes of a file holding s: a gap before off is filled with zeros. */
  function Overlay(s: seq<Byte>, off: nat, buf: seq<Byte>): (r: seq<Byte>)
    ensures |r| == if off + |buf| < |s| then |s| else off + |buf|
    ensures forall i | 0 <= i < |r| ::
              r[i] == if off <= i < off + |buf| then buf[i - off] else if i < |s| then s[i] else 0
  {
    (if off <= |s| then s[..off] else s + Zeros(off - |s|)) + buf + (if off + |buf| < |s| then s[off + |buf|..] else [])
  }

  lemma DivModBlock(i: nat, k: nat, r: nat)
    requires i == BLOCK_SIZE * k + r && r < BLOCK_SIZE
    ensures i / BLOCK_SIZE == k && i % BLOCK_SIZE == r
  {
  }

  /** Copying into one block is a splice of the whole file. */
  lemma FlatPut(c: seq<Block>, k: nat, off: nat, buf: seq<Byte>)
    requires k < |c| && off + |buf| <= BLOCK_SIZE
    ensures BLOCK_SIZE * k + off + |buf| <= |Flat(c)|
    ensures Flat(c[k := PutBytes(c[k], off, buf)]) == Splice(Flat(c), BLOCK_SIZE * k + off, buf)
  {
    var x, y := Flat(c[k := PutBytes(c[k], off, buf)]), Splice(Flat(c), BLOCK_SIZE * k + off, buf);
    forall i | 0 <= i < |x| ensures x[i] == y[i] {
      var q, r := i / BLOCK_SIZE, i % BLOCK_SIZE;
      assert i == BLOCK_SIZE * q + r;
      assert q < |c|;
    }
  }

  lemma FlatSlice(c: seq<Block>, k: nat, off: nat, n: nat)
    requires k < |c| && off + n <= BLOCK_SIZE
    ensures BLOCK_SIZE * k + off + n <= |Flat(c)|
    ensures c[k][off..off + n] == Flat(c)[BLOCK_SIZE * k + off..][..n]
  {
    var x, y := c[k][off..off + n], Flat(c)[BLOCK_SIZE * k + off..][..n];
    forall i | 0 <= i < n ensures x[i] == y[i] {
      DivModBlock(BLOCK_SIZE * k + off + i, k, off + i);
    }
  }

  lemma FlatGrow(c: seq<Block>)
    ensures Flat(c + [ZeroBlock()]) == Flat(c) + Zeros(BLOCK_SIZE)
  {
    var x, y := Flat(c + [ZeroBlock()]), Flat(c) + Zeros(BLOCK_SIZE);
    forall i | 0 <= i < |x| ensures x[i] == y[i] {
      if i < BLOCK_SIZE * |c| {
        assert i / BLOCK_SIZE < |c|;
      } else {
        DivModBlock(i, |c|, i - BLOCK_SIZE * |c|);
      }
    }
  }

  lemma SpliceThen(s: seq<Byte>, pos: nat, a: seq<Byte>, b: seq<Byte>)
    requires pos + |a| + |b| <= |s|
    ensures Splice(Splice(s, pos, a), pos + |a|, b) == Splice(s, pos, a + b)
  {
  }

  lemma SpliceGrow(s: seq<Byte>, pos: nat, a: seq<Byte>, z: seq<Byte>)
    requires pos + |a| <= |s|
    ensures Splice(s + z, pos, a) == Splice(s, pos, a) + z
  {
  }

  // ---- a file: its blocks laid end to end and its size ----

  /** The blocks cover the size, and nothing but zeros lies beyond it. */
  ghost predicate Covered(flat: seq<Byte>, size: nat) {
    size <= |flat| && forall j | size <= j < |flat| :: flat[j] == 0
  }

  /** Writing buf over a covered file at off gives the overlay, whatever room was added before. */
  lemma SpliceIsOverlay(flat: seq<Byte>, size: nat, room: nat, off: nat, buf: seq<Byte>)
    requires Covered(flat, size) && off + |buf| <= |flat| + room
    ensures var size' := if off + |buf| < size then size else off + |buf|;
            var flat' := Splice(flat + Zeros(room), off, buf);
            Covered(flat', size') && flat'[..size'] == Overlay(flat[..size], off, buf)
  {
  }

  /** A write at the end is an append. */
  lemma OverlayAppend(s: seq<Byte>, buf: seq<Byte>)
    ensures Overlay(s, |s|, buf) == s + buf
  {
  }
}
