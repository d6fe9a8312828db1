/** Disk blocks as 4096 bytes, and the little-endian 32-bit words that indirect blocks hold. */
module Bytes {

  const BLOCK_SIZE: nat := 4096
  const WORDS_PER_BLOCK: nat := 1024
  const TWO_32: nat := 0x1_0000_0000

  /** Block numbers of the 97 groups that the assertion in `alloc_block_group` lets through; 96 descriptors fit. */
  const VOLUME_BLOCKS: nat := 3_278_018

  type Byte = b: nat | b < 256
  type Word = w: nat | w < 0x1_0000_0000
  type Block = s: seq<Byte> | |s| == 4096 witness seq(4096, _ => 0)

  /** Contents by block number: the view of the volume that the block cache presents. */
  type Store = map<Word, Block>

  function ZeroBlock(): Block {
    seq(4096, _ => 0)
  }

  function FromBytes(b0: nat, b1: nat, b2: nat, b3: nat): nat {
    b0 + 0x100 * b1 + 0x1_0000 * b2 + 0x100_0000 * b3
  }

  /** The i-th 32-bit word of a block. */
  function GetWord(b: Block, i: nat): Word
    requires i < WORDS_PER_BLOCK
  {
    FromBytes(b[4 * i], b[4 * i + 1], b[4 * i + 2], b[4 * i + 3])
  }

  function WordBytes(w: Word): (r: seq<Byte>)
    ensures |r| == 4
    ensures w == FromBytes(r[0], r[1], r[2], r[3])
  {
    var q1 := w / 0x100;
    var q2 := q1 / 0x100;
    [w % 0x100, q1 % 0x100, q2 % 0x100, q2 / 0x100]
  }

  /** The block after `*(ptr + i) = w`: word i reads back w and every other word is untouched. */
  function PutWord(b: Block, i: nat, w: Word): (r: Block)
    requires i < WORDS_PER_BLOCK
    ensures forall j | 0 <= j < WORDS_PER_BLOCK :: GetWord(r, j) == if j == i then w else GetWord(b, j)
  {
    var bytes := WordBytes(w);
    var r: Block := b[4 * i := bytes[0]][4 * i + 1 := bytes[1]][4 * i + 2 := bytes[2]][4 * i + 3 := bytes[3]];
    r
  }

  /** `memcpy(block + off, buf, |buf|)`. */
  function PutBytes(b: Block, off: nat, buf: seq<Byte>): (r: Block)
    requires off + |buf| <= BLOCK_SIZE
    ensures forall j | 0 <= j < BLOCK_SIZE :: r[j] == if off <= j < off + |buf| then buf[j - off] else b[j]
  {
    b[..off] + buf + b[off + |buf|..]
  }

  function Min(a: nat, b: nat): nat {
    if a < b then a else b
  }

  function Max(a: nat, b: nat): nat {
    if a < b then b else a
  }

  /** A word read of a block that may be missing: what `IndirectBlockPtr::seek` yields when it succeeds. */
  function Rd(st: Store, b: Word, i: nat): Word {
    if b in st && i < WORDS_PER_BLOCK then GetWord(st[b], i) else 0
  }

  ghost predicate Distinct<T>(s: seq<T>) {
    forall i, j | 0 <= i < j < |s| :: s[i] != s[j]
  }

  lemma {:induction false} Fewer<T>(a: set<T>, b: set<T>)
    requires a <= b
    ensures |a| <= |b|
  {
    if a != {} {
      var x :| x in a;
      Fewer(a - {x}, b - {x});
    }
  }

  lemma Rejoined<T>(s: seq<T>, k: nat)
    requires k <= |s|
    ensures s[..k] + s[k..] == s
  {
  }

  lemma Chunks<T>(s: seq<T>, from: nat, at: nat, n: nat)
    requires from <= at <= at + n <= |s|
    ensures s[at..][..n] == s[at..at + n] && s[from..at] + s[at..at + n] == s[from..at + n]
  {
  }

  lemma Regrouped<T>(a: seq<T>, b: seq<T>, c: seq<T>)
    ensures (a + b) + c == a + (b + c)
  {
  }
}
