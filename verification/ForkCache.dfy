/**
 The budgeted cache of resource forks in etc/afpd/ad_cache.c, with its circular doubly linked
 LRU list (libatalk/util/queue.c). The length of a cached fork is also its charge on the budget.
 */
module ForkCache {
  import opened Bytes

  // The states of dcache_rlen below zero
  const RLEN_UNKNOWN: int := -1
  const RLEN_NO_AD: int := -2
  const RLEN_RFORK_ONLY: int := -3

  /** A queue node; the queue itself is a node without data. */
  class QNode {
    var prev: QNode
    var next: QNode
    var data: Dir?

    constructor Sentinel()
      ensures prev == this && next == this && data == null
    {
      prev, next, data := this, this, null;
    }

    constructor (prev: QNode, next: QNode, data: Dir)
      ensures this.prev == prev && this.next == next && this.data == data
    {
      this.prev, this.next, this.data := prev, next, data;
    }
  }

  /** The parts of struct dir that the caches use. */
  class Dir {
    var ino: int          // the stat the entry was brought to
    var ctime: int
    var mtime: int
    var finderinfo: seq<byte>
    var mdate: uint32     // the modification date of dcache_filedatesi
    var afpfilei: seq<byte>
    var rlen: int         // the resource fork length, or one of the states above
    var buf: Option<seq<byte>>
    var node: QNode?

    constructor (ino: int, ctime: int, mtime: int)
      ensures this.ino == ino && this.ctime == ctime && this.mtime == mtime
      ensures rlen == RLEN_UNKNOWN && buf == None && node == null
    {
      this.ino, this.ctime, this.mtime := ino, ctime, mtime;
      finderinfo, mdate, afpfilei := [], 0, [];
      rlen, buf, node := RLEN_UNKNOWN, None, null;
    }
  }

  /** The lengths of the cached forks, added up. */
  ghost function Total(ds: seq<Dir>): (n: int)
    reads ds`rlen
  {
    if ds == [] then 0 else ds[0].rlen + Total(ds[1..])
  }

  lemma {:induction false} TotalAppend(a: seq<Dir>, b: seq<Dir>)
    ensures Total(a + b) == Total(a) + Total(b)
  {
    if a == [] {
      assert a + b == b;
    } else {
      TotalAppend(a[1..], b);
      assert (a + b)[1..] == a[1..] + b;
    }
  }

  lemma {:induction false} TotalNonNegative(ds: seq<Dir>)
    requires forall d :: d in ds ==> d.rlen >= 0
    ensures Total(ds) >= 0
  {
    if ds != [] {
      TotalNonNegative(ds[1..]);
    }
  }

  lemma TotalWithout(ds: seq<Dir>, i: nat)
    requires i < |ds|
    ensures Total(Without(ds, i)) + ds[i].rlen == Total(ds)
  {
    TotalAppend(ds[..i], ds[i + 1..]);
    TotalAppend(ds[..i], ds[i..]);
    assert ds[..i] + ds[i..] == ds;
    assert ds[i..][1..] == ds[i + 1..];
  }

  class Cache {
    const lru: QNode
    const budget: nat
    const maxEntrySize: nat
    var used: nat
    var count: nat

    ghost var dirs: set<Dir>     // every entry of the dircache
    ghost var order: seq<Dir>    // the entries in the list, the oldest first
    ghost var ring: seq<QNode>   // the sentinel and the nodes of those entries

    ghost predicate Linked()
      reads `ring, ring
    {
      && ring != [] && ring[0] == lru
      && (forall i, j :: 0 <= i < j < |ring| ==> ring[i] != ring[j])
      && (forall i :: 0 <= i < |ring| - 1 ==> ring[i].next == ring[i + 1])
      && (forall i :: 0 <= i < |ring| - 1 ==> ring[i + 1].prev == ring[i])
      && ring[|ring| - 1].next == lru && lru.prev == ring[|ring| - 1]
    }

    /** Nodes and entries point at each other. */
    ghost predicate Owned()
      reads `ring, `order, `dirs, ring, order`node
    {
      && |ring| == |order| + 1
      && forall i :: 0 <= i < |order| ==>
           order[i] in dirs && order[i].node == ring[i + 1] && ring[i + 1].data == order[i]
    }

    /** The list holds exactly the entries with a buffer. */
    ghost predicate Held()
      reads `order, `dirs, dirs`buf, dirs`node, dirs`rlen
    {
      && (forall d :: d in order ==> d in dirs)
      && (forall d :: d in dirs ==> (d in order <==> d.buf.Some?))
      && (forall d :: d in dirs && d.buf.None? ==> d.node == null)
      && (forall d :: d in dirs && d.buf.Some? ==> d.rlen == |d.buf.value|)
    }

    /** The counter is the sum of the lengths of all buffers, and stays within the budget. */
    ghost predicate Accounted()
      reads `order, `used, `count, order`rlen
    {
      used == Total(order) <= budget && count == |order|
    }

    ghost predicate Valid()
      reads this, ring, order`node, order`rlen, dirs`buf, dirs`node, dirs`rlen
    {
      Linked() && Owned() && Held() && Accounted()
    }

    constructor (budget: nat, maxEntrySize: nat, ghost dirs: set<Dir>)
      requires forall d :: d in dirs ==> d.buf == None && d.node == null
      ensures Valid() && this.dirs == dirs && this.budget == budget && this.maxEntrySize == maxEntrySize
      ensures fresh(ring) && order == []
    {
      this.budget, this.maxEntrySize, this.dirs := budget, maxEntrySize, dirs;
      lru := new QNode.Sentinel();
      used, count := 0, 0;
      new;
      ring, order := [lru], [];
    }

    /** The two assignments that take a node out of the list. */
    method Unlink(node: QNode, ghost i: nat)
      requires Linked() && 1 <= i < |ring| && ring[i] == node
      modifies `ring, ring
      ensures Linked() && ring == Without(old(ring), i)
      ensures forall k :: 0 <= k < |old(ring)| ==> old(ring)[k].data == old(ring[k].data)
    {
      ghost var before, n := ring, |ring|;
      assert node.prev == ring[i - 1] by { assert ring[(i - 1) + 1].prev == ring[i - 1]; }
      assert node.next == if i == n - 1 then lru else ring[i + 1];
      node.prev.next := node.next;
      node.next.prev := node.prev;
      ring := Without(ring, i);
      assert forall k :: 0 <= k < i ==> ring[k] == before[k];
      assert forall k :: i <= k < n - 1 ==> ring[k] == before[k + 1];
      forall k | 0 <= k < |ring| - 1
        ensures ring[k].next == ring[k + 1] && ring[k + 1].prev == ring[k]
      {
        if k < i - 1 {
          assert before[k].next == before[k + 1] && before[k + 1].prev == before[k];
        } else if k >= i {
          assert before[k + 1].next == before[(k + 1) + 1] && before[(k + 1) + 1].prev == before[k + 1];
        }
      }
    }

    /** The node of an entry leaves the list, and the entry forgets it. */
    method Detach(d: Dir, ghost i: nat)
      requires Linked() && Owned() && i < |order| && order[i] == d && count == |order|
      modifies `ring, `order, `count, ring, d`node
      ensures Linked() && Owned() && d.node == null && count == |order|
      ensures order == Without(old(order), i) && i + 1 < |old(ring)| && ring == Without(old(ring), i + 1)
      ensures forall e :: e in order <==> e in old(order) && e != d
    {
      hide Without, Linked;
      OwnersDiffer();
      WithoutAt(order, i);
      WithoutAt(ring, i + 1);
      WithoutMembers(order, i);
      Unlink(d.node, i + 1);
      order := Without(order, i);
      d.node := null;
      count := count - 1;
    }

    lemma OwnersDiffer()
      requires Linked() && Owned()
      ensures forall i, j :: 0 <= i < |order| && 0 <= j < |order| && i != j ==> order[i] != order[j]
    {
      forall i, j | 0 <= i < |order| && 0 <= j < |order| && i != j
        ensures order[i] != order[j]
      {
        assert ring[i + 1] != ring[j + 1];
      }
    }

    /** rfork_cache_free. Its violation and underflow branches need rlen < 0 or rlen > used. */
    method Free(d: Dir) returns (ghost i: nat)
      requires Valid() && d in dirs
      modifies `used, `count, `order, `ring, ring, d`buf, d`node
      ensures Valid() && d.buf == None && d.rlen == old(d.rlen)
      ensures old(d.buf.None?) ==> order == old(order) && ring == old(ring) && used == old(used)
      ensures forall k :: 0 <= k < |ring| ==> ring[k] in old(ring)
      ensures old(d.buf.Some?) ==> && i < |old(order)| && old(order)[i] == d && order == Without(old(order), i)
                                   && i + 1 < |old(ring)| && ring == Without(old(ring), i + 1)
                                   && used == old(used) - d.rlen
    {
      i := 0;
      if d.buf == None {
        return;
      }
      i := Position(d);
      FreeAt(d, i);
    }

    lemma Position(d: Dir) returns (i: nat)
      requires Valid() && d in dirs && d.buf.Some?
      ensures i < |order| && order[i] == d
      ensures Total(order) == Total(Without(order, i)) + d.rlen && 0 <= d.rlen <= used
    {
      hide Linked, Owned;
      i :| 0 <= i < |order| && order[i] == d;
      TotalWithout(order, i);
      TotalNonNegative(Without(order, i));
    }

    method FreeAt(d: Dir, ghost i: nat)
      requires Valid() && d in dirs && d.buf.Some? && i < |order| && order[i] == d
      requires Total(order) == Total(Without(order, i)) + d.rlen && 0 <= d.rlen <= used
      modifies `used, `count, `order, `ring, ring, d`buf, d`node
      ensures Valid() && d.buf == None && d.rlen == old(d.rlen)
      ensures order == Without(old(order), i) && i + 1 < |old(ring)| && ring == Without(old(ring), i + 1)
      ensures used == old(used) - d.rlen
    {
      hide Linked, Owned, Without, Total;
      used := used - d.rlen;
      d.buf := None;
      Detach(d, i);
    }

    /**
     rfork_cache_evict_to_budget: the oldest buffers go, as few of them as make room for `needed` bytes,
     or all of them when none of that helps.
     */
    method EvictToBudget(needed: nat) returns (ghost k: nat)
      requires Valid()
      modifies `used, `count, `order, `ring, ring, dirs`buf, dirs`node
      ensures Valid() && k <= |old(order)| && order == old(order)[k..]
      ensures k < |old(order)| ==> used + needed <= budget
      ensures k > 0 ==> old(Total(order[k - 1..])) + needed > budget
      ensures forall i :: 0 <= i < |ring| ==> ring[i] in old(ring)
      ensures forall d :: d in dirs ==> d.rlen == old(d.rlen) && d.buf == if d in order then old(d.buf) else None
    {
      hide *;
      k := 0;
      HeadOfList();
      assert order == old(order)[0..];
      while lru.next != lru && used + needed > budget
        invariant Valid() && k <= |old(order)| && order == old(order)[k..]
        invariant forall i :: 0 <= i < |ring| ==> ring[i] in old(ring)
        invariant (lru.next == lru <==> order == []) && used == Total(order) && forall d :: d in order ==> d in dirs
        invariant k > 0 ==> old(Total(order[k - 1..])) + needed > budget
        invariant forall d :: d in dirs ==> d.rlen == old(d.rlen) && d.buf == if d in order then old(d.buf) else None
        decreases |order|
      {
        SameTotal(order);
        assert order[0] in dirs && order[1..] == old(order)[k + 1..];
        FreeOldest();
        k := k + 1;
        HeadOfList();
      }
    }

    method FreeOldest()
      requires Valid() && order != []
      modifies `used, `count, `order, `ring, ring, order[..1]`buf, order[..1]`node
      ensures Valid() && order == old(order)[1..] && forall i :: 0 <= i < |ring| ==> ring[i] in old(ring)
      ensures old(order)[0].rlen == old(order[0].rlen) && old(order)[0].buf == None && old(order)[0] !in order
    {
      hide Linked, Owned;
      HeadOfList();
      var d := lru.next.data;
      ghost var i := Free(d);
      assert i == 0;
    }

    twostate lemma SameTotal(ds: seq<Dir>)
      requires forall d :: d in ds ==> d.rlen == old(d.rlen)
      ensures Total(ds) == old(Total(ds))
    {
      if ds != [] {
        SameTotal(ds[1..]);
      }
    }

    /** The list is empty exactly when the sentinel points at itself, and its first node is the oldest entry's. */
    lemma HeadOfList()
      requires Valid()
      ensures lru.next == if order == [] then lru else order[0].node
      ensures order != [] ==> order[0].node != lru && order[0].node.data == order[0]
      ensures |ring| == |order| + 1 && ring[0] == lru && used == Total(order)
      ensures forall d :: d in dirs ==> (d in order <==> d.buf.Some?)
      ensures forall d :: d in order ==> d in dirs
      ensures forall i :: 1 <= i < |order| ==> order[i] != order[0]
    {
    }

    /** enqueue: a new node for the entry at the tail of the list. */
    method Enqueue(d: Dir)
      requires Linked() && Owned() && d in dirs && d !in order && count == |order|
      modifies `ring, `order, `count, ring, d`node
      ensures Linked() && Owned() && order == old(order) + [d] && count == |order|
      ensures |ring| == |old(ring)| + 1 && old(ring) <= ring && fresh(ring[|old(ring)|])
    {
      ghost var n := |ring|;
      var node := new QNode(lru.prev, lru, d);
      lru.prev.next := node;
      lru.prev := node;
      ring := ring + [node];
      d.node := node;
      order := order + [d];
      count := count + 1;
      assert forall k :: 0 <= k < n ==> ring[k] == old(ring)[k];
    }

    /** The end of rfork_cache_store_from_fd: the entry takes the buffer, the charge and a place in the list. */
    method Attach(d: Dir, data: seq<byte>)
      requires Valid() && d in dirs && d.buf == None && d.rlen == |data| && used + |data| <= budget
      modifies `used, `count, `order, `ring, ring, d`buf, d`node
      ensures Valid() && order == old(order) + [d] && used == old(used) + |data|
      ensures d.buf == Some(data) && d.rlen == old(d.rlen)
      ensures |ring| == |old(ring)| + 1 && old(ring) <= ring && fresh(ring[|old(ring)|])
    {
      hide Linked, Owned;
      d.buf := Some(data);
      used := used + d.rlen;
      Enqueue(d);
      TotalAppend(old(order), [d]);
      assert Total([d]) == d.rlen by { assert [d][1..] == []; }
    }

    /** An entry without a buffer may change its length. */
    method SetRlen(d: Dir, rlen: int)
      requires Valid() && d in dirs && d.buf == None
      modifies d`rlen
      ensures Valid() && d.rlen == rlen
    {
      hide Linked, Owned;
      assert d !in order;
      d.rlen := rlen;
    }

    /** The budget checks of rfork_cache_store_from_fd, with the eviction between them. */
    method MakeRoom(needed: nat) returns (room: bool)
      requires Valid()
      modifies `used, `count, `order, `ring, ring, dirs`buf, dirs`node
      ensures Valid() && (room <==> used + needed <= budget) && (room <==> needed <= budget)
      ensures old(used) + needed <= budget ==> order == old(order) && forall e :: e in dirs ==> e.buf == old(e.buf)
      ensures forall e :: e in dirs ==> e.buf == old(e.buf) || e.buf == None
      ensures forall i :: 0 <= i < |ring| ==> ring[i] in old(ring)
    {
      hide *;
      Bounds();
      if used + needed > budget {
        ghost var k := EvictToBudget(needed);
        Bounds();
      }
      room := used + needed <= budget;
    }

    /**
     rfork_cache_store_from_fd. `readable` stands for the checks on the open fork and its locks, `memory`
     for the allocations and the stat, and `data` for what ad_read delivers.
     */
    method StoreFromFd(d: Dir, readable: bool, memory: bool, data: seq<byte>) returns (ok: bool)
      requires Valid() && d in dirs
      modifies `used, `count, `order, `ring, ring, dirs`buf, dirs`node, d`rlen, d`finderinfo, d`mdate, d`afpfilei
      ensures Valid()
      ensures ok <==> && readable && memory && 0 < old(d.rlen) <= maxEntrySize && old(d.rlen) <= budget
                      && |data| == old(d.rlen)
      ensures d.buf == if ok then Some(data) else None
      ensures d.rlen == old(d.rlen) ==>
                d.finderinfo == old(d.finderinfo) && d.mdate == old(d.mdate) && d.afpfilei == old(d.afpfilei)
      ensures ok ==> order != [] && order[|order| - 1] == d
      ensures forall i :: 0 <= i < |ring| ==> ring[i] in old(ring) || fresh(ring[i])
      ensures forall e :: e in dirs && e != d ==> (e.buf == old(e.buf) || e.buf == None)
      ensures d.rlen == if readable && memory && 0 < old(d.rlen) <= maxEntrySize && old(d.rlen) <= budget
                           && |data| != old(d.rlen) then RLEN_UNKNOWN else old(d.rlen)
      ensures old(used - (if d.buf.Some? then d.rlen else 0)) + old(d.rlen) <= budget ==>
                forall e :: e in dirs && e != d ==> e.buf == old(e.buf)
    {
      hide Valid, Linked, Owned, Held, Accounted, Total, Without;
      if d.buf.Some? {
        ghost var i := Free(d);
      }
      ok := false;
      if !readable || d.rlen <= 0 || d.rlen > maxEntrySize {
        return;
      }
      var room := MakeRoom(d.rlen);
      if !room {
        return;
      }
      if !memory {
        return;
      }
      if |data| != d.rlen {
        SetRlen(d, RLEN_UNKNOWN);
        d.finderinfo, d.mdate, d.afpfilei := [], 0, [];
        return;
      }
      Attach(d, data);
      ok := true;
    }

    /** A buffer comes with its length, so an entry in one of the states below zero has none. */
    lemma NoBuffer(d: Dir)
      requires Valid() && d in dirs && d.rlen < 0
      ensures d.buf == None
    {
    }

    /** A new entry of the dircache. */
    ghost method AddEntry(d: Dir)
      requires Valid() && d !in dirs && d.buf == None && d.node == null
      modifies `dirs
      ensures Valid() && dirs == old(dirs) + {d} && order == old(order)
    {
      hide Linked, Total;
      dirs := dirs + {d};
    }

    /** An entry that leaves the dircache gives its buffer back first. */
    method RemoveEntry(d: Dir)
      requires Valid() && d in dirs
      modifies `used, `count, `order, `ring, `dirs, ring, d`buf, d`node
      ensures Valid() && dirs == old(dirs) - {d} && d.buf == None
      ensures forall k :: 0 <= k < |ring| ==> ring[k] in old(ring)
    {
      hide Linked, Total;
      ghost var i := Free(d);
      assert d !in order;
      dirs := dirs - {d};
    }

    lemma Bounds()
      requires Valid()
      ensures used <= budget && (order == [] ==> used == 0)
      ensures forall d :: d in dirs ==> (d in order <==> d.buf.Some?)
    {
    }
  }
}
