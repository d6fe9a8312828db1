/** The bitmap over 32-bit words of `src/utils/bitmap.cpp`. */
module Bitmaps {
  import opened Bytes

  const BITS: nat := 32
  const BIT_MAX: Word := 0xFFFF_FFFF

  function Pow2(n: nat): nat {
    if n == 0 then 1 else 2 * Pow2(n - 1)
  }

  /** Bit i of an integer in two's complement; division by 2 is the arithmetic shift. */
  predicate Bit(x: int, i: nat)
    decreases i
  {
    if i == 0 then x % 2 == 1 else Bit(x / 2, i - 1)
  }

  /** Bit i of the bitmap held in words. */
  predicate Has(words: seq<Word>, i: nat)
    requires i < BITS * |words|
  {
    Bit(words[i / BITS], i % BITS)
  }

  /** `w | (1 << b)`. */
  function WithBit(w: int, b: nat): int {
    if Bit(w, b) then w else w + Pow2(b)
  }

  /** `w & ~(1 << b)`. */
  function WithoutBit(w: int, b: nat): int {
    if Bit(w, b) then w - Pow2(b) else w
  }

  lemma {:induction false} AddBit(w: int, b: nat, i: nat)
    requires !Bit(w, b)
    ensures Bit(w + Pow2(b), i) <==> i == b || Bit(w, i)
    decreases b
  {
    if b == 0 {
      assert (w + 1) / 2 == w / 2;
    } else {
      assert (w + Pow2(b)) / 2 == w / 2 + Pow2(b - 1) && (w + Pow2(b)) % 2 == w % 2;
      if i > 0 {
        AddBit(w / 2, b - 1, i - 1);
      }
    }
  }

  lemma {:induction false} DropBit(w: int, b: nat, i: nat)
    requires Bit(w, b)
    ensures Bit(w - Pow2(b), i) <==> i != b && Bit(w, i)
    decreases b
  {
    if b == 0 {
      assert (w - 1) / 2 == w / 2;
    } else {
      assert (w - Pow2(b)) / 2 == w / 2 - Pow2(b - 1) && (w - Pow2(b)) % 2 == w % 2;
      if i > 0 {
        DropBit(w / 2, b - 1, i - 1);
      }
    }
  }

  /** A clear bit below n leaves room to set it. */
  lemma {:induction false} BitRange(w: nat, b: nat, n: nat)
    requires b < n && w < Pow2(n)
    ensures !Bit(w, b) ==> w + Pow2(b) < Pow2(n)
    ensures Bit(w, b) ==> w >= Pow2(b)
    decreases b
  {
    var h, r := w / 2, w % 2;
    assert w == 2 * h + r && h < Pow2(n - 1);
    if b > 0 {
      BitRange(h, b - 1, n - 1);
    }
  }

  /** Reading a word as a signed integer does not change its bits. */
  lemma {:induction false} SignedBits(x: int, n: nat, i: nat)
    requires i < n
    ensures Bit(x - Pow2(n), i) == Bit(x, i)
    decreases i
  {
    assert (x - Pow2(n)) / 2 == x / 2 - Pow2(n - 1) && (x - Pow2(n)) % 2 == x % 2;
    if i > 0 {
      SignedBits(x / 2, n - 1, i - 1);
    }
  }

  /** A word with its lowest n bits all set and no others is 2^n - 1. */
  lemma {:induction false} AllSet(w: nat, n: nat)
    requires w < Pow2(n) && forall i | 0 <= i < n :: Bit(w, i)
    ensures w == Pow2(n) - 1
    decreases n
  {
    if n > 0 {
      assert Bit(w, 0);
      forall i | 0 <= i < n - 1 ensures Bit(w / 2, i) {
        assert Bit(w, i + 1);
      }
      AllSet(w / 2, n - 1);
    }
  }

  lemma AllOnes(i: nat)
    requires i < 32
    ensures Bit(BIT_MAX, i)
  {
    OnesBits(32, i);
    Pow2Is32();
  }

  lemma {:induction false} OnesBits(n: nat, i: nat)
    requires i < n
    ensures Bit(Pow2(n) - 1, i)
    decreases i
  {
    assert (Pow2(n) - 1) / 2 == Pow2(n - 1) - 1 && (Pow2(n) - 1) % 2 == 1;
    if i > 0 {
      OnesBits(n - 1, i - 1);
    }
  }

  lemma Pow2Is32()
    ensures Pow2(32) == TWO_32
  {
    assert Pow2(8) == 256;
    assert Pow2(16) == 65536;
    assert Pow2(24) == 16777216;
  }

  /** `set(i)`. */
  method Set(words: array<Word>, i: nat)
    requires i < BITS * words.Length
    modifies words
    ensures forall j | 0 <= j < BITS * words.Length :: Has(words[..], j) <==> j == i || old(Has(words[..], j))
  {
    var k, b := i / BITS, i % BITS;
    Pow2Is32();
    BitRange(words[k], b, 32);
    ghost var w := words[k];
    words[k] := WithBit(words[k], b);
    forall j | 0 <= j < BITS * words.Length ensures Has(words[..], j) <==> j == i || old(Has(words[..], j)) {
      if j / BITS == k && !Bit(w, b) {
        AddBit(w, b, j % BITS);
      }
    }
  }

  /** `clear(i)`. */
  method Clear(words: array<Word>, i: nat)
    requires i < BITS * words.Length
    modifies words
    ensures forall j | 0 <= j < BITS * words.Length :: Has(words[..], j) <==> j != i && old(Has(words[..], j))
  {
    var k, b := i / BITS, i % BITS;
    Pow2Is32();
    BitRange(words[k], b, 32);
    ghost var w := words[k];
    words[k] := WithoutBit(words[k], b);
    forall j | 0 <= j < BITS * words.Length ensures Has(words[..], j) <==> j != i && old(Has(words[..], j)) {
      if j / BITS == k && Bit(w, b) {
        DropBit(w, b, j % BITS);
      }
    }
  }

  /**
   * The inner loop of `find`: the lowest clear bit of a word that is not all ones, by arithmetic shifts
   * of the signed value.
   */
  method LowestClear(w: Word) returns (k: nat)
    requires w != BIT_MAX
    ensures k < BITS && !Bit(w, k) && forall j | 0 <= j < k :: Bit(w, j)
  {
    hide Bit, Shifted;
    ghost var z := SomeClear(w);
    var cur: int := if w >= 0x8000_0000 then w - 0x1_0000_0000 else w;
    SignedShifted(w, cur);
    k := 0;
    ShiftedLow(cur, w, k);
    while cur % 2 == 1
      invariant k <= z < BITS && !Bit(w, z) && (Bit(w, k) <==> cur % 2 == 1)
      invariant Shifted(cur, w, k) && forall j | 0 <= j < k :: Bit(w, j)
      decreases z - k
    {
      ShiftedNext(cur, w, k);
      cur := cur / 2;
      k := k + 1;
      ShiftedLow(cur, w, k);
    }
  }

  /** The bits of x are those of w from bit k on. */
  ghost predicate Shifted(x: int, w: Word, k: nat) {
    forall j | 0 <= j < BITS - k :: Bit(x, j) == Bit(w, k + j)
  }

  lemma SignedShifted(w: Word, x: int)
    requires x == if w >= 0x8000_0000 then w - 0x1_0000_0000 else w
    ensures Shifted(x, w, 0)
  {
    Pow2Is32();
    forall i | 0 <= i < BITS ensures Bit(x, i) == Bit(w, i) {
      SignedBits(w, 32, i);
    }
  }

  lemma ShiftedLow(x: int, w: Word, k: nat)
    requires Shifted(x, w, k) && k < BITS
    ensures Bit(w, k) <==> x % 2 == 1
  {
    hide Bit;
    LowBit(x);
    assert Bit(x, 0) == Bit(w, k + 0);
  }

  lemma ShiftedNext(x: int, w: Word, k: nat)
    requires Shifted(x, w, k) && k < BITS
    ensures Shifted(x / 2, w, k + 1)
  {
    hide Bit;
    forall j | 0 <= j < BITS - k - 1 ensures Bit(x / 2, j) == Bit(w, k + 1 + j) {
      NextBit(x, j);
      assert Bit(x, j + 1) == Bit(w, k + (j + 1));
    }
  }

  lemma LowBit(x: int)
    ensures Bit(x, 0) <==> x % 2 == 1
  {
  }

  lemma NextBit(x: int, j: nat)
    ensures Bit(x / 2, j) == Bit(x, j + 1)
  {
  }

  lemma SomeClear(w: Word) returns (z: nat)
    requires w != BIT_MAX
    ensures z < BITS && !Bit(w, z)
  {
    Pow2Is32();
    if forall i | 0 <= i < BITS :: Bit(w, i) {
      AllSet(w, 32);
      assert false;
    }
    z :| z < BITS && !Bit(w, z);
  }

  /** `find(size)`: the least clear bit below size, or -1 when there is none. */
  method Find(words: array<Word>, size: nat) returns (r: int)
    requires size <= BITS * words.Length
    ensures r == -1 <==> forall i | 0 <= i < size :: Has(words[..], i)
    ensures r != -1 ==> 0 <= r < size && !Has(words[..], r) && forall i | 0 <= i < r :: Has(words[..], i)
  {
    var maxIndex := size / BITS + if size % BITS != 0 then 1 else 0;
    for i := 0 to maxIndex
      invariant forall j | 0 <= j < BITS * i :: Has(words[..], j)
    {
      if words[i] != BIT_MAX {
        var k := LowestClear(words[i]);
        forall j | BITS * i <= j < BITS * i + k ensures Has(words[..], j) {
          assert j / BITS == i && j % BITS == j - BITS * i;
        }
        assert (BITS * i + k) / BITS == i && (BITS * i + k) % BITS == k;
        r := BITS * i + k;
        assert !Has(words[..], r);
        if r >= size { r := -1; }
        return;
      }
      forall j | BITS * i <= j < BITS * (i + 1) ensures Has(words[..], j) {
        AllOnes(j % BITS);
      }
    }
    r := -1;
  }
}
