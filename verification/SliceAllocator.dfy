/**
 The slice allocator as `hev-memory-allocator-slice.c` runs it: free lists and
 LRU links updated in place. Each call is proved to do what `SliceModel` says.
 */
module SliceAllocator {
  import opened Common
  import opened Links
  import opened RbShape
  import opened SliceModel

  ghost function RefTo(i: int): Ref<nat> {
    if i < 0 then Null else To(i)
  }

  /** The LRU list of classes; -1 is the null pointer. */
  class Lru {
    var head: int
    var tail: int
    const prev: array<int>
    const next: array<int>
    ghost var items: seq<nat>

    constructor ()
      ensures Valid() && items == [] && fresh(prev) && fresh(next)
    {
      prev, next := new int[CLASSES], new int[CLASSES];
      head, tail, items := -1, -1, [];
    }

    ghost function Cells(): (h: Heap<nat>)
      requires prev.Length == next.Length == CLASSES
      reads prev, next
    {
      map i | 0 <= i < CLASSES :: Link(RefTo(prev[i]), RefTo(next[i]))
    }

    ghost predicate Valid()
      reads this, prev, next
    {
      && prev.Length == next.Length == CLASSES && prev != next
      && (forall k :: 0 <= k < |items| ==> items[k] < CLASSES)
      && Linked(Cells(), items)
      && RefTo(head) == At(items, 0) && RefTo(tail) == At(items, |items| - 1)
    }

    /** `_hev_memory_allocator_lru_insert` */
    method Insert(i: nat)
      requires Valid() && i < CLASSES && i !in items
      modifies this, prev, next
      ensures Valid() && items == [i] + old(items)
    {
      hide Fronted;
      Pushed(items, i);
      FrontedLinked(Cells(), items, i);
      InsertLinks(i);
      items := [i] + items;
    }

    method InsertLinks(i: nat)
      requires Valid() && i < CLASSES && i !in items
      modifies this`head, this`tail, prev, next
      ensures head == i && RefTo(tail) == At([i] + items, |items|)
      ensures Cells() == Fronted(old(Cells()), At(items, 0), i)
    {
      prev[i] := -1;
      if head >= 0 {
        next[i] := head;
        prev[head] := i;
      } else {
        next[i] := -1;
      }
      head := i;
      if tail < 0 {
        tail := i;
      }
    }

    /** `_hev_memory_allocator_lru_remove` */
    method Remove(i: nat)
      requires Valid() && i in items
      modifies this, prev, next
      ensures Valid() && items == Without(old(items), i)
    {
      hide Bypassed, Without;
      ghost var k :| 0 <= k < |items| && items[k] == i;
      CutWithout(items, k);
      CutMembers(items, k);
      BypassedLinked(Cells(), items, k);
      RemoveLinks(i, k);
      items := Cut(items, k);
    }

    method RemoveLinks(i: nat, ghost k: nat)
      requires Valid() && k < |items| && items[k] == i
      modifies this`head, this`tail, prev, next
      ensures RefTo(head) == At(Cut(items, k), 0) && RefTo(tail) == At(Cut(items, k), |Cut(items, k)| - 1)
      ensures Cells() == Bypassed(old(Cells()), i)
    {
      assert Fits(Cells(), items, k);
      if prev[i] >= 0 {
        next[prev[i]] := next[i];
      }
      if next[i] >= 0 {
        prev[next[i]] := prev[i];
      }
      if head == i {
        head := next[i];
      }
      if tail == i {
        tail := prev[i];
      }
    }
  }

  class Allocator {
    const lru: Lru
    const cached: array<seq<Block>>
    var count: nat
    /** The headers of the blocks held from the system, with the bytes behind them. */
    var memory: map<Block, Mem>
    ghost var live: set<Block>

    /** `hev_memory_allocator_slice_new` */
    constructor ()
      ensures Is(Empty()) && SliceModel.Valid(Empty()) && fresh(lru) && fresh(lru.prev) && fresh(lru.next) && fresh(cached)
    {
      lru := new Lru();
      cached := new seq<Block>[CLASSES](_ => []);
      count, memory, live := 0, map[], {};
      new;
      EmptyValid();
      assert cached[..] == Empty().chains;
    }

    /** The object holds the state `s`. */
    ghost predicate Is(s: State)
      reads this, cached, lru, lru.prev, lru.next
    {
      && lru.Valid()
      && cached[..] == s.chains && lru.items == s.lru && count == s.count && memory == s.sys && live == s.live
    }

    /** `_hev_memory_allocator_alloc`; `mem` is the answer of the system, should it be asked. */
    method Alloc(size: nat, mem: Option<Block>, ghost s: State) returns (r: Option<Block>)
      requires Is(s) && SliceModel.Valid(s) && Offer(s, mem) && size < WORD
      modifies this, cached, lru, lru.prev, lru.next
      ensures Is(SliceModel.Alloc(s, size, mem).0) && r == SliceModel.Alloc(s, size, mem).1
    {
      hide Without;
      var index := Index(size);
      if index == 0 {
        return None;
      }
      if 1 <= index <= CLASSES && cached[index - 1] != [] {
        TotalAtLeast(s.chains, index - 1);
        r := Pop(index - 1, s);
        live := live + {r.value};
      } else {
        if mem.None? {
          return None;
        }
        memory := memory[mem.value := Mem(Asked(size), if 1 <= index <= CLASSES then index - 1 else -1)];
        live := live + {mem.value};
        r := mem;
      }
    }

    method Pop(i: nat, ghost s: State) returns (r: Option<Block>)
      requires Is(s) && LruOk(s.lru, s.chains) && |s.chains| == CLASSES
      requires i < CLASSES && s.chains[i] != [] && s.count > 0
      modifies this`count, cached, lru, lru.prev, lru.next
      ensures r == Some(s.chains[i][0]) && Is(Popped(s, i))
    {
      hide Without;
      r := Some(cached[i][0]);
      cached[i] := cached[i][1..];
      count := count - 1;
      WithoutMembers(s.lru, i);
      lru.Remove(i);
      if cached[i] != [] {
        lru.Insert(i);
      }
    }

    /** One block of the class at the tail of the LRU list goes back to the system. */
    method Evict(ghost s: State)
      requires Is(s) && LruOk(s.lru, s.chains) && HasVictim(s) && |s.chains| == CLASSES
      modifies this`count, this`memory, cached, lru, lru.prev, lru.next
      ensures Is(Evicted(s))
    {
      hide Without;
      var i := lru.tail;
      var b := cached[i][0];
      cached[i] := cached[i][1..];
      count := count - 1;
      if cached[i] == [] {
        lru.Remove(i);
      }
      memory := memory - {b};
    }

    method Push(b: Block, i: nat, ghost s: State)
      requires Is(s) && LruOk(s.lru, s.chains) && |s.chains| == CLASSES && i < CLASSES
      modifies this`count, cached, lru, lru.prev, lru.next
      ensures Is(Cached(s, b, i))
    {
      cached[i] := [b] + cached[i];
      count := count + 1;
      if |cached[i]| == 1 {
        lru.Insert(i);
      }
    }

    /** `_hev_memory_allocator_free` */
    method Free(b: Block, ghost s: State)
      requires Is(s) && SliceModel.Valid(s) && b in s.live
      modifies this, cached, lru, lru.prev, lru.next
      ensures Is(SliceModel.Free(s, b))
    {
      hide Without;
      var i := memory[b].tag;
      live := live - {b};
      ghost var u := s.(live := s.live - {b});
      if i < 0 {
        memory := memory - {b};
        return;
      }
      if count >= MAX_COUNT {
        VictimFound(s);
        FromClient(s, b);
        EvictedValid(u, b);
        Evict(u);
        u := Evicted(u);
      }
      Push(b, i, u);
    }

    /** `_hev_memory_allocator_realloc`; `mem` is where the system puts the block. */
    method Realloc(b: Block, size: nat, mem: Option<Block>, ghost s: State) returns (r: Option<Block>)
      requires Is(s) && SliceModel.Valid(s) && b in s.live && size < WORD
      modifies this, cached, lru, lru.prev, lru.next
      ensures Is(SliceModel.Realloc(s, b, size, mem).0) && r == SliceModel.Realloc(s, b, size, mem).1
    {
      if size == 0 {
        Free(b, s);
        return None;
      }
      if mem.None? {
        return None;
      }
      var index := Index(size);
      memory := (memory - {b})[mem.value := Mem(Asked(size), if 1 <= index <= CLASSES then index - 1 else -1)];
      live := live - {b} + {mem.value};
      r := mem;
    }

    /** `_hev_memory_allocator_destroy`; `freed` lists the blocks it frees, in order. */
    method Destroy(ghost s: State) returns (freed: seq<Block>)
      requires Is(s) && SliceModel.Valid(s)
      ensures NoRepeat(freed) && forall b :: b in freed <==> b in s.sys && b !in s.live
    {
      hide Body;
      LruBound(s);
      freed := [];
      var node := lru.head;
      ghost var n := 0;
      while node >= 0
        invariant n <= |s.lru| && RefTo(node) == At(s.lru, n)
        invariant freed == Flat(s.lru[..n], s.chains)
        decreases |s.lru| - n
      {
        var iter := cached[node];
        while iter != []
          invariant freed + iter == Flat(s.lru[..n], s.chains) + s.chains[s.lru[n]]
          decreases |iter|
        {
          freed := freed + [iter[0]];
          iter := iter[1..];
        }
        assert s.lru[..n + 1][..n] == s.lru[..n];
        assert Fits(lru.Cells(), s.lru, n);
        node := lru.next[node];
        n := n + 1;
      }
      assert s.lru[..n] == s.lru;
      DestroyOnce(s);
    }
  }
}
