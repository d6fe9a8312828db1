/**
 * The block cache of `src/cache.cpp`: a doubly linked list in order of use, a map from block numbers
 * to list nodes, and a pool of free nodes.
 */
module BlockCaches {
  import opened Bytes

  class Node {
    var dirty: bool
    var index: Word
    var block: Block
    var prev: Node?
    var next: Node?

    constructor ()
    {
      dirty := false;
      index := 0;
      block := seq(4096, _ => 0);
      prev := null;
      next := null;
    }
  }

  function Without<T>(s: seq<T>, i: nat): seq<T>
    requires i < |s|
  {
    s[..i] + s[i + 1..]
  }

  /** The block numbers of a list of nodes. */
  ghost function Indices(c: seq<Node>): (r: seq<Word>)
    reads c`index
    ensures |r| == |c| && forall i | 0 <= i < |c| :: r[i] == c[i].index
  {
    if c == [] then [] else [c[0].index] + Indices(c[1..])
  }

  datatype Entry = Entry(block: Block, dirty: bool)

  // ---- the cache as a value ----

  /** The recency list, the cached blocks and the disk behind them. */
  datatype State = State(keys: seq<Word>, entries: map<Word, Entry>, disk: Store)

  /** A list without its first occurrence of k. */
  function Dropped(keys: seq<Word>, k: Word): seq<Word> {
    if keys == [] then [] else if keys[0] == k then keys[1..] else [keys[0]] + Dropped(keys[1..], k)
  }

  /** What an eviction leaves on disk. */
  function WrittenBack(disk: Store, k: Word, e: Entry): Store {
    if e.dirty then disk[k := e.block] else disk
  }

  function Used(s: State, k: Word, dirty: bool): State {
    if k !in s.entries then s
    else s.(keys := [k] + Dropped(s.keys, k),
        entries := s.entries[k := Entry(s.entries[k].block, s.entries[k].dirty || dirty)])
  }

  function Removed(s: State, k: Word): State {
    if k !in s.entries then s
    else State(Dropped(s.keys, k), s.entries - {k}, WrittenBack(s.disk, k, s.entries[k]))
  }

  function Filled(s: State, k: Word, block: Block, dirty: bool): State {
    s.(keys := [k] + s.keys, entries := s.entries[k := Entry(block, dirty)])
  }

  function Inserted(s: State, k: Word, block: Block, dirty: bool, size: nat): State {
    if k in s.entries then Used(s, k, dirty)
    else if |s.keys| == size > 0 then Filled(Removed(s, s.keys[size - 1]), k, block, dirty)
    else Filled(s, k, block, dirty)
  }

  lemma {:induction false} DroppedAt(keys: seq<Word>, i: nat)
    requires Distinct(keys) && i < |keys|
    ensures Dropped(keys, keys[i]) == Without(keys, i)
  {
    if i > 0 {
      assert keys[0] != keys[i];
      assert keys[1..][i - 1] == keys[i];
      DroppedAt(keys[1..], i - 1);
      assert [keys[0]] + Without(keys[1..], i - 1) == Without(keys, i);
    }
  }

  class BlockCache {
    const head: Node
    const tail: Node
    var lookup: map<Word, Node>
    var pool: seq<Node>
    var disk: Store
    /** The list, with the sentinels at both ends. */
    ghost var chain: seq<Node>
    /** The nodes in the list. */
    ghost var used: set<Node>
    /** All nodes: `entries_`. */
    ghost const nodes: set<Node>
    const size: nat

    constructor (size: nat, disk: Store)
      requires size > 0
      ensures Valid() && fresh(nodes) && fresh(head) && fresh(tail)
      ensures View() == State([], map[], disk) && this.size == size
    {
      var h := new Node();
      var t := new Node();
      var free: seq<Node> := [];
      for i := 0 to size
        invariant |free| == i && Distinct(free)
        invariant forall n | n in free :: fresh(n) && n != h && n != t
      {
        var n := new Node();
        free := free + [n];
      }
      head, tail := h, t;
      lookup := map[];
      pool := free;
      this.disk := disk;
      this.size := size;
      chain := [h, t];
      used := {};
      nodes := set n | n in free;
      new;
      head.prev, head.next := null, tail;
      tail.prev, tail.next := head, null;
    }

    /** The chain from head to tail is linked both ways and has no repetitions. */
    ghost predicate Linked()
      reads this`chain, chain`prev, chain`next
    {
      && |chain| >= 2 && chain[0] == head && chain[|chain| - 1] == tail
      && (forall i {:trigger chain[i].prev} | 1 <= i < |chain| :: chain[i].prev == chain[i - 1])
      && (forall i {:trigger chain[i].next} | 0 <= i < |chain| - 1 :: chain[i].next == chain[i + 1])
      && Distinct(chain)
    }

    /** The cached block numbers from the most to the least recently used. */
    ghost function Keys(): (r: seq<Word>)
      requires |chain| >= 2
      reads this`chain, chain`index
    {
      Indices(chain[1..|chain| - 1])
    }

    /** The list holds the used nodes, in some order. */
    ghost predicate Listed()
      reads this`chain, this`used
    {
      && |chain| >= 2 && head !in used && tail !in used
      && (forall n | n in chain :: n == head || n == tail || n in used)
      && (forall n | n in used :: n in chain)
    }

    /** Used nodes and pool are all the nodes; the map holds exactly the used ones. */
    ghost predicate Books()
      reads this`used, this`pool, this`lookup, nodes`index
    {
      && head !in nodes && tail !in nodes
      && Distinct(pool)
      && (forall n | n in nodes :: n in used <==> n !in pool)
      && (forall n | n in pool :: n in nodes)
      && (forall n | n in used :: n in nodes && n.index in lookup && lookup[n.index] == n)
      && (forall k | k in lookup :: lookup[k] in used && lookup[k].index == k)
    }

    /** The same while one node is neither in the list nor in the pool. */
    ghost predicate BooksBut(node: Node)
      reads this`used, this`pool, this`lookup, nodes`index
    {
      && head !in nodes && tail !in nodes && node in nodes && node !in used && node !in pool
      && Distinct(pool)
      && (forall n | n in nodes && n != node :: n in used <==> n !in pool)
      && (forall n | n in pool :: n in nodes)
      && (forall n | n in used :: n in nodes && n.index in lookup && lookup[n.index] == n)
      && (forall k | k in lookup :: lookup[k] in nodes && lookup[k].index == k)
      && (forall k | k in lookup && k != node.index :: lookup[k] in used)
    }

    ghost predicate Valid()
      reads this, chain, nodes
    {
      Linked() && Listed() && Books() && |chain| - 2 + |pool| == size > 0
    }

    /** The cached blocks. */
    ghost function Entries(): map<Word, Entry>
      requires forall k | k in lookup :: lookup[k] in nodes
      reads this`lookup, nodes`block, nodes`dirty
    {
      map k | k in lookup :: Entry(lookup[k].block, lookup[k].dirty)
    }

    /** `detach(node)`: the two pointer updates. */
    method Unlink(node: Node, ghost i: nat)
      requires Linked() && 1 <= i < |chain| - 1 && chain[i] == node
      modifies this`chain, chain`next, chain`prev
      ensures Linked() && chain == Without(old(chain), i)
    {
      node.prev.next := node.next;
      node.next.prev := node.prev;
      chain := Without(chain, i);
    }

    /** `attach(node)`: the four pointer updates, right behind the head. */
    method LinkFirst(node: Node)
      requires Linked() && node !in chain
      modifies this`chain, chain`next, chain`prev, node`next, node`prev
      ensures Linked() && chain == [head, node] + old(chain)[1..]
    {
      node.prev := head;
      node.next := head.next;
      head.next := node;
      node.next.prev := node;
      chain := [head, node] + chain[1..];
    }

    /** `detach(node)` with the bookkeeping: the node leaves its place in the order. */
    method Detach(node: Node, ghost i: nat)
      requires Linked() && Listed() && used <= nodes && 1 <= i < |chain| - 1 && chain[i] == node
      modifies this`chain, this`used, nodes`next, nodes`prev, head`next, head`prev, tail`next, tail`prev
      ensures Linked() && Listed() && |chain| == |old(chain)| - 1
      ensures used == old(used) - {node} && node in old(used)
      ensures Keys() == Without(old(Keys()), i - 1)
    {
      hide Linked, Indices, Without, Distinct;
      ghost var c := chain;
      LinkedFacts();
      WithoutMembers(c, i);
      WithoutInner(c, i);
      Unlink(node, i);
      used := used - {node};
      IndicesWithout(c[1..|c| - 1], i - 1);
    }

    lemma LinkedFacts()
      requires Linked()
      ensures |chain| >= 2 && chain[0] == head && chain[|chain| - 1] == tail && Distinct(chain)
    {
    }

    lemma InnerAfter<T>(c: seq<T>, first: T, node: T)
      requires |c| >= 2
      ensures ([first, node] + c[1..])[1..|c|] == [node] + c[1..|c| - 1]
    {
    }

    /** `attach(node)` with the bookkeeping: the node becomes the most recent one. */
    method Attach(node: Node)
      requires Linked() && Listed() && used <= nodes && node in nodes && node !in used && node != head && node != tail
      modifies this`chain, this`used, nodes`next, nodes`prev, head`next, head`prev, tail`next, tail`prev
      ensures Linked() && Listed() && |chain| == |old(chain)| + 1
      ensures used == old(used) + {node}
      ensures Keys() == [node.index] + old(Keys())
    {
      hide Linked, Indices, Distinct;
      ghost var c := chain;
      LinkedFacts();
      LinkFirst(node);
      used := used + {node};
      assert forall k | 0 <= k < |c| :: chain[if k == 0 then 0 else k + 1] == c[k];
      InnerAfter(c, head, node);
    }

    /** Where a used node stands. */
    lemma Place(node: Node) returns (i: nat)
      requires Linked() && Listed() && node in used
      ensures 1 <= i < |chain| - 1 && chain[i] == node && |Keys()| == |chain| - 2 && Keys()[i - 1] == node.index
    {
      i :| 0 <= i < |chain| && chain[i] == node;
    }

    ghost function View(): State
      requires |chain| >= 2 && Books()
      reads this, chain`index, nodes`index, nodes`block, nodes`dirty
    {
      State(Keys(), Entries(), disk)
    }

    /** The recency list names each cached block once. */
    lemma KeysAre()
      requires Valid()
      ensures |chain| >= 2 && |Keys()| + |pool| == size && Distinct(Keys())
      ensures forall k | k in Keys() :: k in Entries()
      ensures forall k | k in Entries() :: k in Keys()
    {
      forall i | 0 <= i < |Keys()| ensures chain[i + 1] in used && lookup[Keys()[i]] == chain[i + 1] {
        assert chain[i + 1] in chain;
        assert chain[0] != chain[i + 1] && chain[|chain| - 1] != chain[i + 1];
      }
      forall k | k in Entries() ensures k in Keys() {
        var i := Place(lookup[k]);
      }
    }

    /** Moves a used node to the front. */
    method Touch(node: Node)
      requires Valid() && node in used
      modifies this`chain, this`used, nodes`next, nodes`prev, head`next, head`prev, tail`next, tail`prev
      ensures Valid() && View() == old(View()).(keys := [node.index] + Dropped(old(View()).keys, node.index))
    {
      hide Linked, Listed, Indices, Dropped, Without, Distinct, Entries;
      KeysAre();
      ghost var keys := Keys();
      ghost var i := Place(node);
      DroppedAt(keys, i - 1);
      Detach(node, i);
      Attach(node);
      assert used == old(used);
    }

    /** `get(index, dirty)`: a hit moves the block to the front and may mark it. */
    method Get(index: Word, dirty: bool) returns (found: bool, block: Block)
      requires Valid()
      modifies this`chain, this`used, nodes`next, nodes`prev, nodes`dirty, head`next, head`prev, tail`next, tail`prev
      ensures Valid() && found == (index in old(View()).entries)
      ensures View() == Used(old(View()), index, dirty)
      ensures found ==> block == old(View()).entries[index].block
    {
      hide Linked, Listed, Indices, Dropped, Without, Distinct;
      KeysAre();
      found, block := false, ZeroBlock();
      if index in lookup {
        var node := lookup[index];
        Hit(index, dirty);
        found, block := true, node.block;
      }
    }

    /** `modify(index)`: marks a cached block. */
    method Modify(index: Word)
      requires Valid()
      modifies nodes`dirty
      ensures Valid() && View() == Marked(old(View()), index)
    {
      hide Linked, Listed, Indices, Dropped, Without, Distinct;
      KeysAre();
      if index in lookup {
        lookup[index].dirty := true;
      }
    }

    /** Writing through the block pointer a caller holds: contents change, the mark does not. */
    method Poke(index: Word, block: Block)
      requires Valid() && index in lookup
      modifies nodes`block
      ensures Valid() && index in old(View()).entries && View() == Poked(old(View()), index, block)
    {
      hide Linked, Listed, Indices, Dropped, Without, Distinct;
      KeysAre();
      lookup[index].block := block;
    }

    /** Takes a node out of the cache: `detach`, `release` (write back if dirty) and erase from the map. */
    method Evict(node: Node)
      requires Valid() && node in used
      modifies this`chain, this`used, this`pool, this`lookup, this`disk
      modifies nodes`next, nodes`prev, head`next, head`prev, tail`next, tail`prev
      ensures Valid() && |pool| == |old(pool)| + 1 && View() == Removed(old(View()), node.index)
    {
      hide Linked, Listed, Indices, Dropped, Without, Distinct, Books, Entries;
      KeysAre();
      EntryOf(node);
      ghost var keys := Keys();
      ghost var i := Place(node);
      DroppedAt(keys, i - 1);
      if node.dirty {
        disk := disk[node.index := node.block];
      }
      Delist(node, i);
    }

    lemma EntryOf(node: Node)
      requires Valid() && node in used
      ensures node.index in Entries() && Entries()[node.index] == Entry(node.block, node.dirty)
    {
    }

    /** `detach(node)`, back to the pool, out of the map. */
    method Delist(node: Node, ghost i: nat)
      requires Valid() && node in used && 1 <= i < |chain| - 1 && chain[i] == node
      modifies this`chain, this`used, this`pool, this`lookup
      modifies nodes`next, nodes`prev, head`next, head`prev, tail`next, tail`prev
      ensures Valid() && |pool| == |old(pool)| + 1
      ensures Keys() == Without(old(Keys()), i - 1)
      ensures Entries() == old(Entries()) - {node.index}
    {
      hide Linked, Listed, Indices, Dropped, Without, Distinct;
      Detach(node, i);
      Retire(node);
    }

    /** The node goes back to the pool and its number leaves the map. */
    method Retire(node: Node)
      requires Linked() && Listed() && |chain| - 1 + |pool| == size > 0
      requires BooksBut(node) && node.index in lookup && lookup[node.index] == node
      modifies this`pool, this`lookup
      ensures Valid() && |pool| == |old(pool)| + 1 && Entries() == old(Entries()) - {node.index}
    {
      hide Linked, Listed, Indices;
      pool := pool + [node];
      lookup := lookup - {node.index};
    }

    /** `remove(index)`. */
    method Remove(index: Word)
      requires Valid()
      modifies this`chain, this`used, this`pool, this`lookup, this`disk
      modifies nodes`next, nodes`prev, head`next, head`prev, tail`next, tail`prev
      ensures Valid() && View() == Removed(old(View()), index)
    {
      hide Linked, Listed, Indices, Dropped, Without, Distinct;
      KeysAre();
      if index in lookup {
        Evict(lookup[index]);
      }
    }

    /** A pool node takes the new block and goes to the front. */
    method Fill(index: Word, block: Block, dirty: bool)
      requires Valid() && index !in lookup && pool != []
      modifies this`chain, this`used, this`pool, this`lookup, nodes, head`next, head`prev, tail`next, tail`prev
      ensures Valid() && View() == Filled(old(View()), index, block, dirty)
    {
      hide Linked, Listed, Indices, Dropped, Without, Distinct, Entries;
      KeysAre();
      var node := TakeNode(index, block, dirty);
      Enlist(node, index);
    }

    /** `free_entries_.back()` and `pop_back()`, and the node's new contents. */
    method TakeNode(index: Word, block: Block, dirty: bool) returns (node: Node)
      requires Valid() && index !in lookup && pool != []
      modifies this`pool, nodes`index, nodes`block, nodes`dirty
      ensures Linked() && Listed() && |chain| - 1 + |pool| == size && Keys() == old(Keys())
      ensures BooksBut(node) && Entries() == old(Entries())
      ensures node.index == index && node.block == block && node.dirty == dirty
    {
      hide Linked, Indices;
      node := pool[|pool| - 1];
      assert node in pool;
      pool := pool[..|pool| - 1];
      node.index := index;
      node.block := block;
      node.dirty := dirty;
      LinkedFacts();
      assert node !in chain;
    }

    /** `map_[index] = node` and `attach(node)`. */
    method Enlist(node: Node, index: Word)
      requires Linked() && Listed() && |chain| - 1 + |pool| == size > 0
      requires BooksBut(node) && node.index == index && index !in lookup
      modifies this`chain, this`used, this`lookup, nodes`next, nodes`prev, head`next, head`prev, tail`next, tail`prev
      ensures Valid() && Keys() == [index] + old(Keys())
      ensures Entries() == old(Entries())[index := Entry(node.block, node.dirty)]
    {
      hide Linked, Listed, Indices, Distinct;
      Attach(node);
      lookup := lookup[index := node];
    }

    /** The least recently used node is the one before the tail. */
    lemma LastNode()
      requires Valid() && pool == []
      ensures tail.prev != null && tail.prev in used && |Keys()| > 0 && tail.prev.index == Keys()[|Keys()| - 1]
    {
      assert chain[|chain| - 1].prev == chain[|chain| - 2];
    }

    /**
     * `insert(index, block, dirty)`: a new block goes to the front, pushing out the least recently
     * used one when the cache is full; a cached one only moves and may be marked.
     */
    method Insert(index: Word, block: Block, dirty: bool)
      requires Valid()
      modifies this`chain, this`used, this`pool, this`lookup, this`disk
      modifies nodes, head`next, head`prev, tail`next, tail`prev
      ensures Valid() && View() == Inserted(old(View()), index, block, dirty, size)
    {
      hide Linked, Listed, Indices, Dropped;
      KeysAre();
      if index !in lookup {
        if pool == [] {
          LastNode();
          Evict(tail.prev);
          assert index !in Entries();
        }
        Fill(index, block, dirty);
      } else {
        Hit(index, dirty);
      }
    }

    method Hit(index: Word, dirty: bool)
      requires Valid() && index in lookup
      modifies this`chain, this`used, nodes`next, nodes`prev, nodes`dirty, head`next, head`prev, tail`next, tail`prev
      ensures Valid() && index in old(View()).entries && View() == Used(old(View()), index, dirty)
    {
      hide Linked, Listed, Indices, Dropped, Without, Distinct;
      KeysAre();
      Mark(index, dirty);
      Touch(lookup[index]);
    }

    /** `node->dirty_ |= dirty`. */
    method Mark(index: Word, dirty: bool)
      requires Valid() && index in lookup
      modifies nodes`dirty
      ensures Valid() && index in old(View()).entries
      ensures var s := old(View());
              var e := s.entries[index];
              View() == s.(entries := s.entries[index := Entry(e.block, e.dirty || dirty)])
    {
      hide Linked, Listed, Indices, Dropped, Without, Distinct;
      KeysAre();
      lookup[index].dirty := lookup[index].dirty || dirty;
    }

    /** `flush()`: every dirty block is written and becomes clean; the map is visited in any order. */
    method Flush()
      requires Valid()
      modifies this`disk, nodes`dirty
      ensures Valid() && View() == Flushed(old(View()))
    {
      hide Linked, Listed, Indices, Dropped, Without, Distinct, Flushing, FlushedAt, Books, Entries, Keys;
      MapKeys();
      ghost var s := View();
      FlushNothing(s);
      var rest := lookup.Keys;
      while rest != {}
        invariant Valid() && |chain| >= 2 && rest <= lookup.Keys == s.entries.Keys && View() == Flushing(s, rest)
        decreases rest
      {
        var k :| k in rest;
        FlushOne(k);
        FlushStep(s, rest, k);
        rest := rest - {k};
      }
    }

    lemma MapKeys()
      requires Valid()
      ensures |chain| >= 2 && lookup.Keys == View().entries.Keys
    {
    }

    method FlushOne(k: Word)
      requires Valid() && k in lookup
      modifies this`disk, nodes`dirty
      ensures Valid() && View() == FlushedAt(old(View()), k)
    {
      hide Linked, Listed, Indices, Dropped, Without, Distinct;
      KeysAre();
      if lookup[k].dirty {
        disk := disk[k := lookup[k].block];
        lookup[k].dirty := false;
      }
    }

    /**
     * `get_block(index, dirty, off, buf)` as one step: a miss loads the block from disk and inserts it;
     * a write marks it and copies buf in, a read hands the contents back.
     */
    method GetBlock(index: Word, dirty: bool, off: nat, buf: seq<Byte>) returns (block: Block)
      requires Valid() && off + |buf| <= BLOCK_SIZE
      modifies this`chain, this`used, this`pool, this`lookup, this`disk
      modifies nodes, head`next, head`prev, tail`next, tail`prev
      ensures Valid() && View() == Accessed(old(View()), index, dirty, off, buf, size)
      ensures block == Look(old(View()), index)
    {
      hide Linked, Listed, Indices, Dropped, Without, Distinct, Books, Entries;
      var found;
      found, block := Get(index, dirty);
      if !found {
        block := OnDisk(disk, index);
        Insert(index, block, dirty);
      }
      if dirty {
        HasEntry(index);
        Poke(index, PutBytes(block, off, buf));
      }
    }

    /** A change through a held block, which must still be cached, and the `modify` after it. */
    method Edit(index: Word, off: nat, buf: seq<Byte>, mark: Word)
      requires Valid() && index in lookup && off + |buf| <= BLOCK_SIZE
      modifies nodes`block, nodes`dirty
      ensures Valid() && index in old(View()).entries && View() == Edited(old(View()), index, off, buf, mark)
    {
      hide Linked, Listed, Indices, Dropped, Without, Distinct, Books;
      KeysAre();
      Poke(index, PutBytes(lookup[index].block, off, buf));
      Modify(mark);
    }

    lemma HasEntry(k: Word)
      requires Valid() && k in View().entries
      ensures k in lookup
    {
    }
  }

  /** Disk contents; a block never written reads as zeros. */
  function OnDisk(disk: Store, k: Word): Block {
    if k in disk then disk[k] else ZeroBlock()
  }

  /** What a reader sees: the cached contents if present, else the disk. */
  function Look(s: State, k: Word): Block {
    if k in s.entries then s.entries[k].block else OnDisk(s.disk, k)
  }

  function Poked(s: State, k: Word, block: Block): State {
    if k in s.entries then s.(entries := s.entries[k := s.entries[k].(block := block)]) else s
  }

  /** `modify`: a cached block is marked dirty, a block that is not cached is ignored. */
  function Marked(s: State, k: Word): State {
    if k in s.entries then s.(entries := s.entries[k := s.entries[k].(dirty := true)]) else s
  }

  /** A change through a block pointer that the caller holds, followed by `modify(mark)`. */
  function Edited(s: State, k: Word, off: nat, buf: seq<Byte>, mark: Word): State
    requires off + |buf| <= BLOCK_SIZE
  {
    Marked(Poked(s, k, PutBytes(Look(s, k), off, buf)), mark)
  }

  function Accessed(s: State, k: Word, dirty: bool, off: nat, buf: seq<Byte>, size: nat): State
    requires off + |buf| <= BLOCK_SIZE
  {
    var s1 := if k in s.entries then Used(s, k, dirty) else Inserted(s, k, OnDisk(s.disk, k), dirty, size);
    if dirty then Poked(s1, k, PutBytes(Look(s, k), off, buf)) else s1
  }

  /** One block written back and clean. */
  function FlushedAt(s: State, k: Word): State {
    if k !in s.entries then s
    else s.(entries := s.entries[k := s.entries[k].(dirty := false)], disk := WrittenBack(s.disk, k, s.entries[k]))
  }

  /** All blocks flushed except those in rest. */
  function Flushing(s: State, rest: set<Word>): State {
    s.(entries := map k | k in s.entries :: if k in rest then s.entries[k] else s.entries[k].(dirty := false),
       disk := map k | k in s.disk.Keys + s.entries.Keys && (k in s.disk || (k !in rest && s.entries[k].dirty)) ::
                 if k in s.entries && k !in rest && s.entries[k].dirty then s.entries[k].block else s.disk[k])
  }

  function Flushed(s: State): State {
    Flushing(s, {})
  }

  lemma FlushNothing(s: State)
    ensures Flushing(s, s.entries.Keys) == s
  {
  }

  lemma FlushStep(s: State, rest: set<Word>, k: Word)
    requires k in rest && k in s.entries
    ensures FlushedAt(Flushing(s, rest), k) == Flushing(s, rest - {k})
  {
    var a, b := FlushedAt(Flushing(s, rest), k), Flushing(s, rest - {k});
    assert a.entries == b.entries;
    assert a.disk.Keys == b.disk.Keys;
    assert a.disk == b.disk;
  }

  lemma WithoutInner<T>(c: seq<T>, i: nat)
    requires 1 <= i < |c| - 1
    ensures |Without(c, i)| == |c| - 1 >= 2
    ensures Without(c, i)[0] == c[0] && Without(c, i)[|c| - 2] == c[|c| - 1]
    ensures Without(c, i)[1..|c| - 2] == Without(c[1..|c| - 1], i - 1)
  {
  }

  lemma {:induction false} IndicesWithout(c: seq<Node>, i: nat)
    requires i < |c|
    ensures Indices(Without(c, i)) == Without(Indices(c), i)
  {
    hide Indices;
    var d, x, y := Without(c, i), Indices(Without(c, i)), Without(Indices(c), i);
    forall k | 0 <= k < |x| ensures x[k] == y[k] {
      assert d[k] == c[if k < i then k else k + 1];
    }
  }

  lemma WithoutMembers<T>(c: seq<T>, i: nat)
    requires Distinct(c) && i < |c|
    ensures c[i] !in Without(c, i)
    ensures forall x | x in c && x != c[i] :: x in Without(c, i)
    ensures forall x | x in Without(c, i) :: x in c
  {
    forall x | x in c && x != c[i] ensures x in Without(c, i) {
      var k :| 0 <= k < |c| && c[k] == x;
      assert Without(c, i)[if k < i then k else k - 1] == x;
    }
  }
}
