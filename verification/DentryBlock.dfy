/** Directory blocks: records appended one after another, the rest of the block zero (`include/block.h`). */
module DentryBlocks {
  import opened Bytes

  const HEADER: nat := 8

  /** A path component: not empty, short enough for the directory cache, without a terminating zero. */
  type Name = s: seq<Byte> | 0 < |s| < 255 && 0 !in s witness [65]

  /** `ext2_dir_entry_2` and the name bytes behind it; `rec_len` is the length of the whole. */
  datatype Rec = Rec(inode: Word, nameLen: Byte, fileType: Byte, text: seq<Byte>)

  /** Unlinking leaves the record in place with name length 0. */
  predicate IsLive(r: Rec) {
    r.nameLen != 0
  }

  predicate WellFormed(r: Rec) {
    0 < |r.text| < 255 && 0 !in r.text && (r.nameLen == |r.text| || r.nameLen == 0)
  }

  /** The name comparison of every scan: first the length, then that many bytes. */
  predicate Matches(r: Rec, name: Name) {
    r.nameLen == |name| && r.nameLen <= |r.text| && r.text[..r.nameLen] == name
  }

  function Erased(r: Rec): Rec {
    r.(nameLen := 0)
  }

  // ---- encoding ----

  function RecBytes(r: Rec): (s: seq<Byte>)
    requires WellFormed(r)
    ensures |s| == HEADER + |r.text|
  {
    WordBytes(r.inode) + [(HEADER + |r.text|) % 256, (HEADER + |r.text|) / 256, r.nameLen, r.fileType] + r.text
  }

  /** The header is the inode, the length of the whole record, the name length and the type; the name follows. */
  lemma RecordLayout(r: Rec)
    requires WellFormed(r)
    ensures var s := RecBytes(r);
            && FromBytes(s[0], s[1], s[2], s[3]) == r.inode && FromBytes(s[4], s[5], 0, 0) == |s|
            && s[6] == r.nameLen && s[7] == r.fileType && s[8..] == r.text
  {
  }

  predicate AllWellFormed(recs: seq<Rec>) {
    forall i | 0 <= i < |recs| :: WellFormed(recs[i])
  }

  function Encode(recs: seq<Rec>): seq<Byte>
    requires AllWellFormed(recs)
  {
    if recs == [] then [] else Encode(recs[..|recs| - 1]) + RecBytes(recs[|recs| - 1])
  }

  /** The block holds exactly these records, and zeros behind them. */
  ghost predicate Holds(b: Block, recs: seq<Rec>) {
    && AllWellFormed(recs)
    && |Encode(recs)| <= BLOCK_SIZE
    && b == Encode(recs) + seq(BLOCK_SIZE - |Encode(recs)|, _ => 0)
  }

  // ---- decoding ----

  function RecLen(b: Block, off: nat): nat
    requires off + HEADER <= BLOCK_SIZE
  {
    var low: nat, high: nat := b[off + 4], b[off + 5];
    low + 256 * high
  }

  /**
   * The header at an offset and the bytes behind it: those of the record, or of the name if that is
   * longer, as far as the block goes.
   */
  function RecAt(b: Block, off: nat): Rec
    requires off + HEADER <= BLOCK_SIZE
  {
    var end := off + Max(HEADER + b[off + 6], RecLen(b, off));
    Rec(FromBytes(b[off], b[off + 1], b[off + 2], b[off + 3]), b[off + 6], b[off + 7],
        b[off + HEADER..Min(end, BLOCK_SIZE)])
  }

  /** The records from offset `off` on, up to a zero record length or the end of the block; any bytes can be parsed. */
  function Parse(b: Block, off: nat): seq<Rec>
    decreases BLOCK_SIZE - off
  {
    if off + HEADER > BLOCK_SIZE || RecLen(b, off) == 0 then []
    else [RecAt(b, off)] + Parse(b, off + RecLen(b, off))
  }

  /** Where those records start. */
  function Starts(b: Block, off: nat): (s: seq<nat>)
    ensures |s| == |Parse(b, off)| && forall i | 0 <= i < |s| :: s[i] + HEADER <= BLOCK_SIZE
    decreases BLOCK_SIZE - off
  {
    if off + HEADER > BLOCK_SIZE || RecLen(b, off) == 0 then []
    else [off] + Starts(b, off + RecLen(b, off))
  }

  /** Where they end. */
  function EndOf(b: Block, off: nat): nat
    decreases BLOCK_SIZE - off
  {
    if off + HEADER > BLOCK_SIZE || RecLen(b, off) == 0 then off
    else EndOf(b, off + RecLen(b, off))
  }

  lemma {:induction false} EncodeSplit(a: seq<Rec>, c: seq<Rec>)
    requires AllWellFormed(a) && AllWellFormed(c)
    ensures AllWellFormed(a + c) && Encode(a + c) == Encode(a) + Encode(c)
    decreases |c|
  {
    hide RecBytes, WellFormed, Encode;
    if c == [] {
      EncodeNone(c);
      assert a + c == a;
    } else {
      var front, r := c[..|c| - 1], c[|c| - 1];
      EncodeSplit(a, front);
      assert a + c == a + front + [r] && c == front + [r];
      EncodeLast(a + front, r);
      EncodeLast(front, r);
      Regrouped(Encode(a), Encode(front), RecBytes(r));
    }
  }

  lemma EncodeLast(recs: seq<Rec>, r: Rec)
    requires AllWellFormed(recs) && WellFormed(r)
    ensures AllWellFormed(recs + [r]) && Encode(recs + [r]) == Encode(recs) + RecBytes(r)
  {
    assert (recs + [r])[..|recs|] == recs;
  }

  lemma EncodeNext(recs: seq<Rec>, i: nat)
    requires AllWellFormed(recs) && i < |recs|
    ensures Encode(recs[..i + 1]) == Encode(recs[..i]) + RecBytes(recs[i])
  {
    hide RecBytes, WellFormed;
    assert recs[..i + 1][..i] == recs[..i];
  }

  /** The bytes of record i, and what lies before and behind them. */
  lemma EncodeAt(recs: seq<Rec>, i: nat)
    requires AllWellFormed(recs) && i < |recs|
    ensures Encode(recs) == Encode(recs[..i]) + RecBytes(recs[i]) + Encode(recs[i + 1..])
    ensures Encode(recs[..i + 1]) == Encode(recs[..i]) + RecBytes(recs[i])
  {
    hide RecBytes, WellFormed, Encode;
    EncodeNext(recs, i);
    EncodeSplit(recs[..i + 1], recs[i + 1..]);
    Rejoined(recs, i + 1);
  }

  lemma DecodeRec(b: Block, off: nat, r: Rec)
    requires WellFormed(r) && off + HEADER + |r.text| <= BLOCK_SIZE
    requires b[off..off + HEADER + |r.text|] == RecBytes(r)
    ensures RecLen(b, off) == HEADER + |r.text| && RecAt(b, off) == r
  {
    var s := b[off..off + HEADER + |r.text|];
    assert forall k | 0 <= k < |s| :: s[k] == b[off + k];
    var w := WordBytes(r.inode);
    assert b[off] == w[0] && b[off + 1] == w[1] && b[off + 2] == w[2] && b[off + 3] == w[3];
    assert b[off + 4] == s[4] == (HEADER + |r.text|) % 256 && b[off + 5] == s[5] == (HEADER + |r.text|) / 256;
    assert b[off + 6] == s[6] == r.nameLen && b[off + 7] == s[7] == r.fileType;
    assert s[HEADER..] == r.text;
    assert b[off + HEADER..off + HEADER + |r.text|] == s[HEADER..];
  }

  /** Record i of a block starts behind the records before it. */
  lemma RecordThere(b: Block, recs: seq<Rec>, i: nat)
    requires Holds(b, recs) && i < |recs|
    ensures var off := |Encode(recs[..i])|;
            && off + HEADER + |recs[i].text| == |Encode(recs[..i + 1])| <= BLOCK_SIZE
            && RecLen(b, off) == HEADER + |recs[i].text| && RecAt(b, off) == recs[i]
  {
    hide Encode;
    EncodeAt(recs, i);
    DecodeRec(b, |Encode(recs[..i])|, recs[i]);
  }

  /**
   * Parsing undoes encoding: from the end of record i - 1 it yields the records from i on, their places
   * and the end.
   */
  lemma {:induction false} ParseRest(b: Block, recs: seq<Rec>, i: nat)
    requires Holds(b, recs) && i <= |recs|
    ensures var off := |Encode(recs[..i])|;
            && off <= BLOCK_SIZE && Parse(b, off) == recs[i..] && EndOf(b, off) == |Encode(recs)|
            && forall j | i <= j < |recs| :: Starts(b, off)[j - i] == |Encode(recs[..j])|
    decreases |recs| - i
  {
    hide Encode, RecAt;
    if i == |recs| {
      assert recs[..i] == recs;
    } else {
      RecordThere(b, recs, i);
      ParseRest(b, recs, i + 1);
    }
  }

  /** A block holds at most one list of records, and parsing finds it, with the place of each and the size used. */
  lemma ParseHeld(b: Block, recs: seq<Rec>)
    requires Holds(b, recs)
    ensures Parse(b, 0) == recs && EndOf(b, 0) == |Encode(recs)|
    ensures forall i | 0 <= i < |recs| :: Starts(b, 0)[i] == |Encode(recs[..i])|
  {
    hide RecAt, Encode;
    ParseRest(b, recs, 0);
    assert recs[..0] == [] && recs[0..] == recs;
    EncodeNone(recs[..0]);
  }

  /** The constructor of `DentryBlock`: collects the records, where they start, and the size used. */
  method Open(b: Block) returns (dentries: seq<Rec>, starts: seq<nat>, size: nat)
    ensures dentries == Parse(b, 0) && starts == Starts(b, 0) && size == EndOf(b, 0)
  {
    hide RecAt;
    dentries, starts, size := [], [], 0;
    while true
      invariant size + HEADER <= BLOCK_SIZE
      invariant dentries + Parse(b, size) == Parse(b, 0)
      invariant starts + Starts(b, size) == Starts(b, 0)
      invariant EndOf(b, size) == EndOf(b, 0)
      decreases BLOCK_SIZE - size
    {
      var recLen := RecLen(b, size);
      if recLen == 0 { break; }
      Regrouped(dentries, [RecAt(b, size)], Parse(b, size + recLen));
      Regrouped(starts, [size], Starts(b, size + recLen));
      dentries, starts := dentries + [RecAt(b, size)], starts + [size];
      size := size + recLen;
      if size + HEADER > BLOCK_SIZE { break; }
    }
  }

  lemma EncodeNone(recs: seq<Rec>)
    requires recs == []
    ensures AllWellFormed(recs) && Encode(recs) == []
  {
  }

  /** `alloc_dentry`: a record written behind the others is found after them. */
  lemma AppendRec(b: Block, recs: seq<Rec>, r: Rec)
    requires Holds(b, recs) && WellFormed(r) && |Encode(recs)| + HEADER + |r.text| <= BLOCK_SIZE
    ensures Holds(PutBytes(b, |Encode(recs)|, RecBytes(r)), recs + [r])
    ensures |Encode(recs + [r])| == |Encode(recs)| + HEADER + |r.text|
  {
    var b' := PutBytes(b, |Encode(recs)|, RecBytes(r));
    assert (recs + [r])[..|recs|] == recs;
    var e := Encode(recs + [r]);
    assert e == Encode(recs) + RecBytes(r);
    assert b' == e + seq(BLOCK_SIZE - |e|, _ => 0);
  }

  /** Setting the name length of record i to zero leaves all other records as they are. */
  lemma EraseRec(b: Block, recs: seq<Rec>, i: nat)
    requires Holds(b, recs) && i < |recs|
    ensures |Encode(recs[..i])| + HEADER <= BLOCK_SIZE
    ensures Holds(PutBytes(b, |Encode(recs[..i])| + 6, [0]), recs[i := Erased(recs[i])])
  {
    hide Encode;
    var off, r := |Encode(recs[..i])|, recs[i];
    var recs' := recs[i := Erased(r)];
    RecordThere(b, recs, i);
    EncodeAt(recs, i);
    EncodeAt(recs', i);
    assert recs'[..i] == recs[..i] && recs'[i + 1..] == recs[i + 1..];
    assert RecBytes(Erased(r)) == RecBytes(r)[6 := 0];
    var rest := seq(BLOCK_SIZE - |Encode(recs)|, _ => 0);
    PutInside(b, Encode(recs[..i]), RecBytes(r), Encode(recs[i + 1..]), rest, 6);
  }

  lemma PutInside(b: Block, a: seq<Byte>, r: seq<Byte>, c: seq<Byte>, rest: seq<Byte>, k: nat)
    requires b == a + r + c + rest && k < |r|
    ensures PutBytes(b, |a| + k, [0]) == a + r[k := 0] + c + rest
  {
  }

  /** A zeroed block holds no records. */
  lemma EmptyBlock(b: Block)
    requires b == ZeroBlock()
    ensures Holds(b, [])
  {
  }

  // ---- a list of records as a finite map ----

  /** No two live records carry the same name. */
  ghost predicate Unique(recs: seq<Rec>) {
    forall i, j | 0 <= i < |recs| && 0 <= j < |recs| && i != j && IsLive(recs[i]) && IsLive(recs[j]) ::
        recs[i].text != recs[j].text
  }

  ghost function Entries(recs: seq<Rec>): map<seq<Byte>, Word>
    requires Unique(recs)
  {
    map i | 0 <= i < |recs| && IsLive(recs[i]) :: recs[i].text := recs[i].inode
  }

  /** Some live record carries the name. */
  ghost predicate Named(recs: seq<Rec>, name: seq<Byte>) {
    exists i | 0 <= i < |recs| :: IsLive(recs[i]) && recs[i].text == name
  }

  lemma AddEntry(recs: seq<Rec>, r: Rec)
    requires Unique(recs) && IsLive(r) && !Named(recs, r.text)
    ensures Unique(recs + [r]) && Entries(recs + [r]) == Entries(recs)[r.text := r.inode]
  {
    var recs' := recs + [r];
    assert recs'[|recs|] == r;
    forall i | 0 <= i < |recs| ensures recs'[i] == recs[i] {}
  }

  lemma EraseEntry(recs: seq<Rec>, i: nat)
    requires Unique(recs) && i < |recs| && IsLive(recs[i])
    ensures var recs' := recs[i := Erased(recs[i])];
            Unique(recs') && Entries(recs') == Entries(recs) - {recs[i].text}
  {
    hide Entries;
    var recs', name := recs[i := Erased(recs[i])], recs[i].text;
    assert Unique(recs');
    forall s | s in Entries(recs')
      ensures s in Entries(recs) && s != name && Entries(recs')[s] == Entries(recs)[s]
    {
      var j := EntryFrom(recs', s);
      EntryIn(recs, j);
    }
    forall s | s in Entries(recs) && s != name ensures s in Entries(recs') {
      var j := EntryFrom(recs, s);
      EntryIn(recs', j);
    }
    assert Entries(recs') == Entries(recs) - {name};
  }

  lemma EntryIn(recs: seq<Rec>, i: nat)
    requires Unique(recs) && i < |recs| && IsLive(recs[i])
    ensures recs[i].text in Entries(recs) && Entries(recs)[recs[i].text] == recs[i].inode
  {
  }

  lemma EntryFrom(recs: seq<Rec>, name: seq<Byte>) returns (i: nat)
    requires Unique(recs) && name in Entries(recs)
    ensures i < |recs| && IsLive(recs[i]) && recs[i].text == name && Entries(recs)[name] == recs[i].inode
  {
    i :| 0 <= i < |recs| && IsLive(recs[i]) && recs[i].text == name;
  }

  function NewRec(name: Name, inode: Word, fileType: Byte): Rec {
    Rec(inode, |name|, fileType, name)
  }

  /** Some live record carries the name and the inode. */
  ghost predicate Maps(recs: seq<Rec>, name: seq<Byte>, inode: Word) {
    exists i | 0 <= i < |recs| :: IsLive(recs[i]) && recs[i].text == name && recs[i].inode == inode
  }

  /** A finite map from names to inodes is what the records stand for. */
  lemma MapsEntries(recs: seq<Rec>, name: seq<Byte>, inode: Word)
    requires Unique(recs)
    ensures Named(recs, name) <==> name in Entries(recs)
    ensures Maps(recs, name, inode) <==> name in Entries(recs) && Entries(recs)[name] == inode
  {
    if Maps(recs, name, inode) {
      var i :| 0 <= i < |recs| && IsLive(recs[i]) && recs[i].text == name && recs[i].inode == inode;
      assert recs[i].text in Entries(recs);
    }
  }

  /** r1 is r0 with the live record of that name erased. */
  ghost predicate Erases(r0: seq<Rec>, r1: seq<Rec>, name: seq<Byte>, inode: Word) {
    exists i | 0 <= i < |r0| ::
      IsLive(r0[i]) && r0[i].text == name && r0[i].inode == inode && r1 == r0[i := Erased(r0[i])]
  }

  lemma ErasesEntries(r0: seq<Rec>, r1: seq<Rec>, name: seq<Byte>, inode: Word)
    requires Unique(r0) && Erases(r0, r1, name, inode)
    ensures Maps(r0, name, inode) && Unique(r1) && Entries(r1) == Entries(r0) - {name} && !Named(r1, name)
  {
    var i :| 0 <= i < |r0| && IsLive(r0[i]) && r0[i].text == name && r0[i].inode == inode
        && r1 == r0[i := Erased(r0[i])];
    EraseEntry(r0, i);
    MapsEntries(r1, name, inode);
  }
}
