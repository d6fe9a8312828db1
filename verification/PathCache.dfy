/**
 * The directory entry cache as a value: the cached paths, and the children of each in ring order.
 * `DentryCaches.DentryCache` is the same cache as linked heap objects.
 */
module PathCaches {
  import opened Bytes
  import opened DentryBlocks
  import opened Names
  import opened Rings

  /** The root and every cached path have a ring. */
  datatype PathCache = PathCache(inodes: map<Path, Word>, rings: map<Path, seq<Name>>)

  const EMPTY: PathCache := PathCache(map[], map[[] := []])

  /** The cached children of a path. */
  function RingAt(c: PathCache, p: Path): seq<Name> {
    if p in c.rings then c.rings[p] else []
  }

  /** The ring of p holds exactly the cached children of p, each once. */
  ghost predicate RingOk(c: PathCache, p: Path) {
    Distinct<Name>(RingAt(c, p)) && forall s: Name :: s in RingAt(c, p) <==> p + [s] in c.inodes
  }

  ghost predicate Ringed(c: PathCache) {
    forall p: Path :: RingOk(c, p)
  }

  /** A lookup that hits moves the child to the front of its ring. */
  function Hit(c: PathCache, up: Path, name: Name): PathCache {
    c.(rings := c.rings[up := Rotated(RingAt(c, up), IndexOf(RingAt(c, up), name))])
  }

  /** A lookup that misses puts the child in, without children of its own. */
  function Missed(c: PathCache, up: Path, name: Name, x: Word): PathCache {
    PathCache(c.inodes[up + [name] := x], c.rings[up := Entered(RingAt(c, up), name)][up + [name] := []])
  }

  /** Removing the child leaves its ring closed. */
  predicate Removable(c: PathCache, up: Path, name: Name) {
    var ring := RingAt(c, up);
    name in ring ==> CanTake(|ring|, IndexOf(ring, name))
  }

  /** `remove`: the child goes, and all below it; this presumes that the ring stays closed. */
  function Removed(c: PathCache, up: Path, name: Name): PathCache
    requires Removable(c, up, name)
  {
    var ring, path := RingAt(c, up), up + [name];
    if name !in ring then c
    else PathCache(Cut(c.inodes, path), Cut(c.rings, path)[up := Taken(ring, IndexOf(ring, name))])
  }

  /** The rings of a and c agree except at p. */
  ghost predicate SameRingsBut(a: PathCache, c: PathCache, p: Path) {
    forall q: Path | q != p :: RingAt(c, q) == RingAt(a, q)
  }

  /** What was cached still is. */
  ghost predicate StillCached(a: PathCache, c: PathCache) {
    forall p | p in a.inodes :: p in c.inodes && c.inodes[p] == a.inodes[p]
  }

  /** The name is at the front of the ring of its directory. */
  ghost predicate Front(c: PathCache, up: Path, name: Name) {
    RingAt(c, up) != [] && RingAt(c, up)[0] == name
  }

  /** The first i components of the path are at the front of their rings. */
  ghost predicate Fronts(c: PathCache, path: Path, i: nat)
    requires i <= |path|
  {
    forall j | 0 <= j < i :: Front(c, path[..j], path[j])
  }

  /** Only the rings of the ancestors of a path have moved. */
  ghost predicate RingsMoved(a: PathCache, c: PathCache, path: Path) {
    forall q: Path | !(|q| < |path| && q <= path) :: RingAt(c, q) == RingAt(a, q)
  }

  /** The ring of a directory after one of its children was looked up. */
  function Brought(ring: seq<Name>, name: Name): seq<Name> {
    if name in ring then Rotated(ring, IndexOf(ring, name)) else Entered(ring, name)
  }

  lemma BroughtFront(ring: seq<Name>, name: Name)
    ensures Brought(ring, name) != [] && Brought(ring, name)[0] == name
  {
  }

  /** One child was looked up: it is cached and at the front of its ring, and nothing else changed. */
  ghost predicate Fetched(a: PathCache, c: PathCache, up: Path, name: Name) {
    && StillCached(a, c) && c.inodes.Keys == a.inodes.Keys + {up + [name]}
    && SameRingsBut(a, c, up) && RingAt(c, up) == Brought(RingAt(a, up), name)
  }

  /** What is cached now is what was, and the first i components of the path. */
  ghost predicate CachedTo(a: PathCache, c: PathCache, path: Path, i: nat) {
    StillCached(a, c) && forall p: Path :: p in c.inodes <==> p in a.inodes || (0 < |p| <= i && p <= path)
  }

  /** The first i components of the path were brought to the front of their rings, and no other ring moved. */
  ghost predicate BroughtTo(a: PathCache, c: PathCache, path: Path, i: nat)
    requires i <= |path|
  {
    && (forall j | 0 <= j < i :: RingAt(c, path[..j]) == Brought(RingAt(a, path[..j]), path[j]))
    && (forall q: Path | !(|q| < i && q <= path) :: RingAt(c, q) == RingAt(a, q))
  }

  lemma CachedMore(a: PathCache, b: PathCache, c: PathCache, path: Path, i: nat)
    requires i < |path| && CachedTo(a, b, path, i) && Fetched(b, c, path[..i], path[i])
    ensures CachedTo(a, c, path, i + 1)
  {
    hide Brought, RingAt, SameRingsBut;
    assert path[..i] + [path[i]] == path[..i + 1];
    forall p: Path ensures p in c.inodes <==> p in a.inodes || (0 < |p| <= i + 1 && p <= path) {
      assert |p| == i + 1 && p <= path <==> p == path[..i + 1];
    }
  }

  lemma BroughtMore(a: PathCache, b: PathCache, c: PathCache, path: Path, i: nat)
    requires i < |path| && BroughtTo(a, b, path, i) && Fetched(b, c, path[..i], path[i])
    ensures BroughtTo(a, c, path, i + 1)
  {
    hide Brought, RingAt, StillCached;
    forall j | 0 <= j < i + 1 ensures RingAt(c, path[..j]) == Brought(RingAt(a, path[..j]), path[j]) {
      assert |path[..j]| == j;
    }
  }

  lemma NothingBrought(c: PathCache, path: Path)
    ensures CachedTo(c, c, path, 0) && BroughtTo(c, c, path, 0)
  {
  }

  lemma BroughtMeans(a: PathCache, c: PathCache, path: Path, i: nat)
    requires i <= |path| && BroughtTo(a, c, path, i)
    ensures Fronts(c, path, i) && RingsMoved(a, c, path)
  {
    hide Brought, RingAt;
    forall j | 0 <= j < i ensures Front(c, path[..j], path[j]) {
      BroughtFront(RingAt(a, path[..j]), path[j]);
    }
  }

  /** A name that can be removed still can after a lookup of its directory. */
  lemma RemovableKept(a: PathCache, c: PathCache, up: Path, name: Name)
    requires RingsMoved(a, c, up) && Removable(a, up, name)
    ensures Removable(c, up, name)
  {
    assert RingAt(c, up) == RingAt(a, up);
  }

  /** A path that was just looked up can be removed. */
  lemma FrontRemovable(c: PathCache, path: Path)
    requires path != [] && Fronts(c, path, |path|)
    ensures Removable(c, Above(path), path[|path| - 1])
  {
    assert Front(c, path[..|path| - 1], path[|path| - 1]);
  }

  lemma HitRinged(c: PathCache, up: Path, name: Name)
    requires Ringed(c) && up + [name] in c.inodes
    ensures var d := Hit(c, up, name);
            Ringed(d) && d.inodes == c.inodes && Fetched(c, d, up, name)
  {
    var d, ring := Hit(c, up, name), RingAt(c, up);
    assert RingOk(c, up);
    RotatedMembers<Name>(ring, IndexOf(ring, name));
    forall p: Path ensures RingOk(d, p) {
      assert RingOk(c, p);
      assert p != up ==> RingAt(d, p) == RingAt(c, p);
    }
  }

  lemma MissedRinged(c: PathCache, up: Path, name: Name, x: Word)
    requires Ringed(c) && Rooted(c.inodes) && up + [name] !in c.inodes
    ensures var d := Missed(c, up, name, x);
            Ringed(d) && Fetched(c, d, up, name) && d.inodes[up + [name]] == x
  {
    hide Entered;
    var d := Missed(c, up, name, x);
    assert RingOk(c, up);
    if RingAt(c, up + [name]) != [] {
      RingCached(c, up + [name]);
    }
    EnteredMembers<Name>(RingAt(c, up), name);
    forall p: Path ensures RingOk(d, p) {
      assert RingOk(c, p);
      assert p != up ==> RingAt(d, p) == RingAt(c, p);
      forall s: Name ensures s in RingAt(d, p) <==> p + [s] in d.inodes {
        LastApart(p, s, up, name);
      }
    }
  }

  /** What has cached children is cached. */
  lemma RingCached(c: PathCache, path: Path)
    requires Ringed(c) && Rooted(c.inodes) && path != [] && RingAt(c, path) != []
    ensures path in c.inodes
  {
    assert RingOk(c, path);
    var s := RingAt(c, path)[0];
    assert (path + [s])[..|path|] == path;
  }

  lemma LastApart(p: Path, s: Name, q: Path, t: Name)
    ensures p + [s] == q + [t] <==> p == q && s == t
  {
    if p + [s] == q + [t] {
      assert |p| == |q|;
      assert p == (p + [s])[..|p|] && q == (q + [t])[..|p|];
      assert (p + [s])[|p|] == (q + [t])[|p|];
    }
  }

  lemma RemovedRinged(c: PathCache, up: Path, name: Name)
    requires Ringed(c) && Rooted(c.inodes) && Removable(c, up, name)
    ensures Ringed(Removed(c, up, name)) && Removed(c, up, name).inodes == Cut(c.inodes, up + [name])
  {
    hide Rooted;
    var ring, path, d := RingAt(c, up), up + [name], Removed(c, up, name);
    assert RingOk(c, up);
    if name in ring {
      TakenMembers<Name>(ring, IndexOf(ring, name));
      Below(path, up, name);
      forall p: Path ensures RingOk(d, p) {
        assert RingOk(c, p);
        assert p != up ==> RingAt(d, p) == if path <= p then [] else RingAt(c, p);
        forall s: Name ensures s in RingAt(d, p) <==> p + [s] in d.inodes {
          LastApart(p, s, up, name);
          Below(path, p, s);
        }
      }
    } else {
      forall p | p in c.inodes ensures !(path <= p) {
        if path <= p {
          PrefixCached(c.inodes, path, p);
        }
      }
      assert Cut(c.inodes, path) == c.inodes;
    }
  }

  /** A path lies below another one exactly when its parent does, or they are equal. */
  lemma Below(path: Path, p: Path, s: Name)
    ensures path <= p + [s] <==> path <= p || path == p + [s]
  {
    if path <= p + [s] && |path| == |p| + 1 {
      assert path == (p + [s])[..|path|];
    }
  }

  lemma {:induction false} PrefixCached(inodes: map<Path, Word>, path: Path, p: Path)
    requires Rooted(inodes) && p in inodes && path <= p && path != []
    ensures path in inodes
    decreases |p|
  {
    if |path| < |p| {
      PrefixCached(inodes, path, p[..|p| - 1]);
    } else {
      assert path == p;
    }
  }

  /**
   * After lookups of two siblings the first of them is second in the ring: removing it without another
   * lookup breaks the ring.
   */
  lemma SecondNotRemovable(a: Name, b: Name)
    requires a != b
    ensures var c := Missed(Missed(EMPTY, [], a, 1), [], b, 2);
            !Removable(c, [], a) && Removable(Hit(c, [], a), [], a)
  {
    var c := Missed(Missed(EMPTY, [], a, 1), [], b, 2);
    assert RingAt(c, []) == [b, a];
    assert IndexOf([b, a], a) == 1;
    assert RingAt(Hit(c, [], a), []) == [a, b];
  }
}
