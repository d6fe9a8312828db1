/** Circular lists as sequences that start at the entry point. */
module Rings {
  import opened Bytes

  /** A new element follows the entry point and becomes the entry point. */
  function Entered<T>(ring: seq<T>, x: T): seq<T> {
    if ring == [] then [x] else [x] + ring[1..] + [ring[0]]
  }

  /** The element at position i becomes the entry point. */
  function Rotated<T>(ring: seq<T>, i: nat): seq<T>
    requires i <= |ring|
  {
    ring[i..] + ring[..i]
  }

  /** The element at position i goes, the one behind it becomes the entry point. */
  function Taken<T>(ring: seq<T>, i: nat): seq<T>
    requires i < |ring|
  {
    ring[i + 1..] + ring[..i]
  }

  function IndexOf<T(==)>(ring: seq<T>, x: T): (i: nat)
    ensures i <= |ring| && (i < |ring| <==> x in ring) && (i < |ring| ==> ring[i] == x)
  {
    if ring == [] || ring[0] == x then 0 else 1 + IndexOf(ring[1..], x)
  }

  /** Taking the element at position i out of n leaves the ring closed. */
  predicate CanTake(n: nat, i: nat) {
    i != 1 || n == 1
  }

  lemma EnteredMembers<T>(ring: seq<T>, x: T)
    requires Distinct(ring) && x !in ring
    ensures Distinct(Entered(ring, x)) && Entered(ring, x)[0] == x && x in Entered(ring, x)
    ensures forall y | y in Entered(ring, x) :: y == x || y in ring
    ensures forall y | y in ring :: y in Entered(ring, x)
  {
    if ring != [] {
      var r := Entered(ring, x);
      assert |r| == |ring| + 1 && forall k | 0 <= k < |r| ::
          r[k] == if k == 0 then x else if k < |ring| then ring[k] else ring[0];
      forall y | y in ring ensures y in r {
        var k :| 0 <= k < |ring| && ring[k] == y;
        assert r[if k == 0 then |ring| else k] == y;
      }
    }
  }

  lemma RotatedMembers<T>(ring: seq<T>, i: nat)
    requires Distinct(ring) && i < |ring|
    ensures Distinct(Rotated(ring, i)) && Rotated(ring, i)[0] == ring[i]
    ensures forall y | y in Rotated(ring, i) :: y in ring
    ensures forall y | y in ring :: y in Rotated(ring, i)
  {
    Rejoined(ring, i);
    var r, n := Rotated(ring, i), |ring|;
    assert forall k | 0 <= k < n :: r[k] == ring[if k < n - i then k + i else k + i - n];
    forall y | y in ring ensures y in r {
      var k :| 0 <= k < n && ring[k] == y;
      assert r[if k >= i then k - i else k + n - i] == y;
    }
  }

  lemma TakenAt<T>(ring: seq<T>, i: nat)
    requires i < |ring|
    ensures var r, n := Taken(ring, i), |ring|;
            |r| == n - 1 && forall k | 0 <= k < n - 1 ::
                r[k] == ring[if k < n - i - 1 then k + i + 1 else k + i + 1 - n]
  {
  }

  lemma TakenMembers<T>(ring: seq<T>, i: nat)
    requires Distinct(ring) && i < |ring|
    ensures Distinct(Taken(ring, i))
    ensures forall y | y in Taken(ring, i) :: y in ring && y != ring[i]
    ensures forall y | y in ring && y != ring[i] :: y in Taken(ring, i)
  {
    var r, n := Taken(ring, i), |ring|;
    TakenAt(ring, i);
    forall y | y in ring && y != ring[i] ensures y in r {
      var k :| 0 <= k < n && ring[k] == y;
      assert r[if k > i then k - i - 1 else k + n - i - 1] == y;
    }
  }

  // ---- who follows whom ----

  function NextIndex(n: nat, i: nat): nat {
    if i + 1 == n then 0 else i + 1
  }

  /** In the circular list, b comes right behind a. */
  ghost predicate Behind<T>(ring: seq<T>, a: T, b: T) {
    exists i | 0 <= i < |ring| :: ring[i] == a && ring[NextIndex(|ring|, i)] == b
  }

  lemma BehindAt<T>(ring: seq<T>, i: nat, b: T)
    requires Distinct(ring) && i < |ring|
    ensures Behind(ring, ring[i], b) <==> b == ring[NextIndex(|ring|, i)]
  {
  }

  /** A new element comes behind the entry point and before what followed that; nothing else moves. */
  lemma EnteredBehind<T>(ring: seq<T>, x: T, i: nat, b: T)
    requires Distinct(ring) && x !in ring && i < |ring|
    ensures Entered(ring, x)[0] == x
    ensures Behind(Entered(ring, x), x, b) <==> Behind(ring, ring[0], b)
    ensures Behind(Entered(ring, x), ring[i], b) <==> if i == 0 then b == x else Behind(ring, ring[i], b)
  {
    var r, n := Entered(ring, x), |ring|;
    EnteredMembers(ring, x);
    assert r[n] == ring[0] && forall k | 1 <= k < n :: r[k] == ring[k];
    BehindAt(r, 0, b);
    BehindAt(ring, 0, b);
    BehindAt(ring, i, b);
    BehindAt(r, if i == 0 then n else i, b);
  }

  /** Entering the list elsewhere does not change who follows whom. */
  lemma RotatedBehind<T>(ring: seq<T>, k: nat, i: nat, b: T)
    requires Distinct(ring) && k < |ring| && i < |ring|
    ensures Rotated(ring, k)[0] == ring[k]
    ensures Behind(Rotated(ring, k), ring[i], b) <==> Behind(ring, ring[i], b)
  {
    var r, n := Rotated(ring, k), |ring|;
    RotatedMembers(ring, k);
    assert forall m | 0 <= m < n :: r[m] == ring[if m < n - k then m + k else m + k - n];
    BehindAt(ring, i, b);
    BehindAt(r, if i >= k then i - k else i + n - k, b);
  }

  /** What followed the element taken out now follows what was before it, and is the entry point. */
  lemma TakenBehind<T>(ring: seq<T>, k: nat, i: nat, b: T)
    requires Distinct(ring) && k < |ring| && i < |ring| && i != k
    ensures Taken(ring, k)[0] == ring[NextIndex(|ring|, k)]
    ensures Behind(Taken(ring, k), ring[i], b) <==>
              Behind(ring, if NextIndex(|ring|, i) == k then ring[k] else ring[i], b)
  {
    var r, n := Taken(ring, k), |ring|;
    TakenAt(ring, k);
    TakenMembers(ring, k);
    BehindAt(ring, i, b);
    BehindAt(ring, k, b);
    BehindAt(r, if i > k then i - k - 1 else i + n - k - 1, b);
  }
}
