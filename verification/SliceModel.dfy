/**
 The slice allocator (`hev-memory-allocator-slice.c`) on values: what each
 call does to the free lists, the LRU list of size classes and the memory
 taken from the system, and why its clients cannot tell it from plain
 `malloc` and `free`. `SliceAllocator` does the same in place.
 */
module SliceModel {
  import opened Common
  import opened Links
  import opened RbShape

  const ALIGN: nat := 16
  const CLASSES: nat := 256
  const MAX_COUNT: nat := 1000
  const HEADER: nat := 16
  const WORD: nat := 0x1_0000_0000_0000_0000

  /** The address of a block, behind its header. */
  type Block = nat

  /** A block from the system: the bytes behind its header, and the class in the header (-1 for none). */
  datatype Mem = Mem(cap: int, tag: int)

  /**
   The free list of each class (top first), the classes in the LRU list (head
   first), the count of cached blocks, and all memory held from the system.
   `live` are the blocks clients hold.
   */
  datatype State = State(chains: seq<seq<Block>>, lru: seq<nat>, count: nat, sys: map<Block, Mem>, live: set<Block>)

  // ---------- Sizes, in 64 bits ----------

  /** `ALIGN_UP (size, 16)`, which wraps. */
  function Aligned(size: nat): (r: nat)
    ensures r % ALIGN == 0 && (size + 15 < WORD ==> size <= r < size + 16) && r < WORD
  {
    (size + 15) % WORD / ALIGN * ALIGN
  }

  /** The quotient as an `int`. */
  function Index(size: nat): (r: int)
    ensures -0x8000_0000 <= r < 0x8000_0000
  {
    var u := Aligned(size) / ALIGN % 0x1_0000_0000;
    if u < 0x8000_0000 then u else u - 0x1_0000_0000
  }

  /** What `malloc` is asked for, less the header: the sum wraps too. */
  function Asked(size: nat): (r: int) {
    (HEADER + Aligned(size)) % WORD - HEADER
  }

  /**
   Sizes for which every block returned is big enough: not so close to the
   end of the address space that the header makes the request wrap, and not
   a huge size whose unit count looks like a small one in 32 bits.
   */
  predicate Served(size: nat) {
    var units := Aligned(size) / ALIGN;
    units != WORD / ALIGN - 1 && !(units >= 0x1_0000_0000 && 1 <= units % 0x1_0000_0000 <= CLASSES)
  }

  // ---------- The invariant ----------

  ghost function Total(chains: seq<seq<Block>>): nat {
    if chains == [] then 0 else |chains[0]| + Total(chains[1..])
  }

  /** The free list of class `i`: different blocks of that class, big enough for it, and with no client. */
  ghost predicate ChainOk(s: State, i: nat)
    requires i < |s.chains|
  {
    && NoRepeat(s.chains[i])
    && forall b :: b in s.chains[i] ==> b in s.sys && b !in s.live && s.sys[b].tag == i && s.sys[b].cap >= (i + 1) * ALIGN
  }

  /** The class of a block is one its bytes are enough for. */
  ghost predicate Labelled(m: Mem) {
    -1 <= m.tag < CLASSES && (m.tag >= 0 ==> m.cap >= (m.tag + 1) * ALIGN)
  }

  /** The free lists, the count and the memory agree; every block is a client's, or cached, or `loose` (on its way). */
  ghost predicate Body(s: State, loose: set<Block>) {
    && |s.chains| == CLASSES
    && (forall i :: 0 <= i < CLASSES ==> ChainOk(s, i))
    && (forall b :: b in s.sys ==> Labelled(s.sys[b]))
    && (forall b :: b in s.sys && b !in s.live && b !in loose ==> s.sys[b].tag >= 0 && b in s.chains[s.sys[b].tag])
    && (forall b :: b in s.live ==> b in s.sys && b !in loose)
    && (forall b :: b in loose ==> b in s.sys)
    && (forall b, i :: b in loose && 0 <= i < CLASSES ==> b !in s.chains[i])
    && s.count == Total(s.chains) <= MAX_COUNT
  }

  /** A class is in the LRU list exactly when its free list is not empty. */
  ghost predicate LruOk(lru: seq<nat>, chains: seq<seq<Block>>) {
    && NoRepeat(lru)
    && (forall i :: i in lru ==> i < |chains| && chains[i] != [])
    && (forall i :: 0 <= i < |chains| && chains[i] != [] ==> i in lru)
  }

  ghost predicate Valid(s: State) {
    Body(s, {}) && LruOk(s.lru, s.chains)
  }

  lemma {:induction false} TotalWith(chains: seq<seq<Block>>, i: nat, chain: seq<Block>)
    requires i < |chains|
    ensures Total(chains[i := chain]) == Total(chains) - |chains[i]| + |chain|
  {
    var c := chains[i := chain];
    if i > 0 {
      TotalWith(chains[1..], i - 1, chain);
      assert c[1..] == chains[1..][i - 1 := chain];
    } else {
      assert c[1..] == chains[1..];
    }
  }

  lemma {:induction false} TotalAtLeast(chains: seq<seq<Block>>, i: nat)
    requires i < |chains|
    ensures |chains[i]| <= Total(chains)
  {
    if i > 0 {
      TotalAtLeast(chains[1..], i - 1);
    }
  }

  lemma {:induction false} TotalFound(chains: seq<seq<Block>>) returns (i: nat)
    requires Total(chains) > 0
    ensures i < |chains| && chains[i] != []
  {
    if chains[0] != [] {
      i := 0;
    } else {
      i := TotalFound(chains[1..]);
      i := i + 1;
    }
  }

  /** Whenever something is cached, the tail of the LRU list names a class to evict from. */
  lemma VictimFound(s: State)
    requires LruOk(s.lru, s.chains) && s.count == Total(s.chains) && s.count > 0
    ensures HasVictim(s)
  {
    var i := TotalFound(s.chains);
    assert i in s.lru;
    assert s.lru[|s.lru| - 1] in s.lru;
  }

  // ---------- The calls ----------

  ghost function WithChain(s: State, i: nat, chain: seq<Block>): State
    requires i < |s.chains|
  {
    s.(chains := s.chains[i := chain])
  }

  /** A block of class `i` off the top of its free list; the class goes to the head of the LRU list, or out. */
  ghost function Popped(s: State, i: nat): State
    requires i < |s.chains| && s.chains[i] != [] && s.count > 0
  {
    var rest := s.chains[i][1..];
    var out := Without(s.lru, i);
    WithChain(s, i, rest).(count := s.count - 1, lru := if rest == [] then out else [i] + out)
  }

  /** `_hev_memory_allocator_alloc`; `mem` is what `malloc` would return. */
  ghost function Alloc(s: State, size: nat, mem: Option<Block>): (State, Option<Block>)
    requires Valid(s)
  {
    var index := Index(size);
    if index == 0 then (s, None)
    else if 1 <= index <= CLASSES && s.chains[index - 1] != [] then
      var b := s.chains[index - 1][0];
      TotalAtLeast(s.chains, index - 1);
      (Popped(s, index - 1).(live := s.live + {b}), Some(b))
    else if mem.None? then (s, None)
    else
      var tag := if 1 <= index <= CLASSES then index - 1 else -1;
      (s.(sys := s.sys[mem.value := Mem(Asked(size), tag)], live := s.live + {mem.value}), mem)
  }

  ghost predicate HasVictim(s: State) {
    s.count > 0 && s.lru != [] && s.lru[|s.lru| - 1] < |s.chains| && s.chains[s.lru[|s.lru| - 1]] != []
  }

  /** At the cap, one block of the class at the tail of the LRU list goes back to the system. */
  ghost function Evicted(s: State): State
    requires HasVictim(s)
  {
    var i := s.lru[|s.lru| - 1];
    var rest := s.chains[i][1..];
    WithChain(s, i, rest).(count := s.count - 1, sys := s.sys - {s.chains[i][0]},
                           lru := if rest == [] then Without(s.lru, i) else s.lru)
  }

  /** The block goes on top of the free list of its class. */
  ghost function Cached(s: State, b: Block, i: nat): State
    requires i < |s.chains|
  {
    WithChain(s, i, [b] + s.chains[i]).(count := s.count + 1, lru := if s.chains[i] == [] then [i] + s.lru else s.lru)
  }

  /** `_hev_memory_allocator_free` */
  ghost function Free(s: State, b: Block): State
    requires Valid(s) && b in s.live
  {
    var u := s.(live := s.live - {b});
    var i := s.sys[b].tag;
    if i < 0 then u.(sys := s.sys - {b})
    else if s.count >= MAX_COUNT then
      VictimFound(s);
      Cached(Evicted(u), b, i)
    else Cached(u, b, i)
  }

  /** `_hev_memory_allocator_realloc`; `mem` is where the system moves the block. */
  ghost function Realloc(s: State, b: Block, size: nat, mem: Option<Block>): (State, Option<Block>)
    requires Valid(s) && b in s.live
  {
    if size == 0 then (Free(s, b), None)
    else if mem.None? then (s, None)
    else
      var index := Index(size);
      var tag := if 1 <= index <= CLASSES then index - 1 else -1;
      (s.(sys := (s.sys - {b})[mem.value := Mem(Asked(size), tag)], live := s.live - {b} + {mem.value}), mem)
  }


  // ---------- Every call keeps it ----------

  lemma LruPopped(lru: seq<nat>, chains: seq<seq<Block>>, i: nat)
    requires LruOk(lru, chains) && i in lru
    ensures var c := chains[i := chains[i][1..]];
      if c[i] == [] then LruOk(Without(lru, i), c) else LruOk([i] + Without(lru, i), c) && LruOk(lru, c)
  {
    WithoutMembers(lru, i);
    Pushed(Without(lru, i), i);
  }

  lemma LruCached(lru: seq<nat>, chains: seq<seq<Block>>, i: nat, b: Block)
    requires LruOk(lru, chains) && i < |chains|
    ensures LruOk(if chains[i] == [] then [i] + lru else lru, chains[i := [b] + chains[i]])
  {
    Pushed(lru, i);
  }

  /** The top block of class `i` leaves its free list. */
  ghost function Taken(s: State, i: nat): State
    requires i < |s.chains| && s.chains[i] != [] && s.count > 0
  {
    WithChain(s, i, s.chains[i][1..]).(count := s.count - 1)
  }

  lemma TakenBody(s: State, i: nat, loose: set<Block>)
    requires Body(s, loose) && i < CLASSES && s.chains[i] != [] && s.count > 0
    ensures Body(Taken(s, i), loose + {s.chains[i][0]}) && s.chains[i][0] !in loose
  {
    var b, s' := s.chains[i][0], Taken(s, i);
    TotalWith(s.chains, i, s.chains[i][1..]);
    assert ChainOk(s, i);
    PoppedFirst(s.chains[i]);
    forall j | 0 <= j < CLASSES
      ensures ChainOk(s', j) && b !in s'.chains[j]
    {
      assert ChainOk(s, j);
    }
  }

  lemma ToClient(s: State, b: Block, loose: set<Block>)
    requires Body(s, loose) && b in loose
    ensures Body(s.(live := s.live + {b}), loose - {b})
  {
    var s' := s.(live := s.live + {b});
    forall j | 0 <= j < CLASSES
      ensures ChainOk(s', j)
    {
      assert ChainOk(s, j);
    }
  }

  lemma FromClient(s: State, b: Block)
    requires Body(s, {}) && b in s.live
    ensures Body(s.(live := s.live - {b}), {b})
  {
    var s' := s.(live := s.live - {b});
    forall j | 0 <= j < CLASSES
      ensures ChainOk(s', j) && b !in s.chains[j]
    {
      assert ChainOk(s, j);
    }
  }

  lemma ToSystem(s: State, b: Block, loose: set<Block>)
    requires Body(s, loose) && b in loose
    ensures Body(s.(sys := s.sys - {b}), loose - {b})
  {
    var s' := s.(sys := s.sys - {b});
    forall j | 0 <= j < CLASSES
      ensures ChainOk(s', j)
    {
      assert ChainOk(s, j);
    }
  }

  lemma FromSystem(s: State, b: Block, m: Mem)
    requires Body(s, {}) && b !in s.sys && Labelled(m)
    ensures Body(s.(sys := s.sys[b := m]), {b})
  {
    var s' := s.(sys := s.sys[b := m]);
    forall j | 0 <= j < CLASSES
      ensures ChainOk(s', j) && b !in s.chains[j]
    {
      assert ChainOk(s, j);
    }
  }

  lemma CachedBody(s: State, b: Block, i: nat)
    requires Body(s, {b}) && s.sys[b].tag == i && s.count < MAX_COUNT
    ensures Body(Cached(s, b, i), {})
  {
    var s' := Cached(s, b, i);
    TotalWith(s.chains, i, [b] + s.chains[i]);
    Pushed(s.chains[i], b);
    forall j | 0 <= j < CLASSES
      ensures ChainOk(s', j)
    {
      assert ChainOk(s, j);
    }
  }

  lemma BodyLru(s: State, lru: seq<nat>, loose: set<Block>)
    requires Body(s, loose)
    ensures Body(s.(lru := lru), loose)
  {
    forall j | 0 <= j < CLASSES
      ensures ChainOk(s.(lru := lru), j)
    {
      assert ChainOk(s, j);
    }
  }

  /** A request of a class gets its bytes, and one that is not of a class gets them unless the request wraps. */
  lemma Sizes(size: nat)
    requires size < WORD
    ensures 1 <= Index(size) <= CLASSES ==> Asked(size) == Aligned(size) >= Index(size) * ALIGN
    ensures Served(size) && 1 <= Index(size) <= CLASSES ==> Index(size) * ALIGN == Aligned(size)
    ensures Served(size) ==> Asked(size) == Aligned(size)
    ensures Index(size) != 0 ==> size <= Aligned(size)
  {
    var units := Aligned(size) / ALIGN;
    assert Aligned(size) == units * ALIGN;
    if size + 15 >= WORD {
      assert (size + 15) % WORD == size + 15 - WORD;
    }
  }

  ghost predicate Offer(s: State, mem: Option<Block>) {
    mem.Some? ==> mem.value !in s.sys
  }

  lemma PoppedValid(s: State, i: nat)
    requires Valid(s) && i < CLASSES && s.chains[i] != [] && s.count > 0
    ensures Body(Popped(s, i), {s.chains[i][0]}) && LruOk(Popped(s, i).lru, Popped(s, i).chains)
  {
    TakenBody(s, i, {});
    assert {} + {s.chains[i][0]} == {s.chains[i][0]};
    LruPopped(s.lru, s.chains, i);
    BodyLru(Taken(s, i), Popped(s, i).lru, {s.chains[i][0]});
  }

  /**
   An allocation keeps the invariant and is a `malloc`: a block it returns is
   one no client holds, of at least the size asked for if the size is one
   that is served; the blocks of the other clients stay as they are.
   */
  lemma AllocRefines(s: State, size: nat, mem: Option<Block>)
    requires Valid(s) && Offer(s, mem) && size < WORD
    ensures
      var (s', r) := Alloc(s, size, mem);
      && Valid(s')
      && (r.None? ==> s' == s)
      && (r.Some? ==> r.value !in s.live && s'.live == s.live + {r.value})
      && (r.Some? && Served(size) ==> s'.sys[r.value].cap >= size)
      && (forall b :: b in s.live ==> s'.sys[b] == s.sys[b])
  {
    var index := Index(size);
    Sizes(size);
    if index == 0 {
    } else if 1 <= index <= CLASSES && s.chains[index - 1] != [] {
      var b := s.chains[index - 1][0];
      TotalAtLeast(s.chains, index - 1);
      assert ChainOk(s, index - 1) && b in s.chains[index - 1];
      PoppedValid(s, index - 1);
      ToClient(Popped(s, index - 1), b, {b});
      assert {b} - {b} == {};
    } else if mem.Some? {
      var m := Mem(Asked(size), if 1 <= index <= CLASSES then index - 1 else -1);
      FromSystem(s, mem.value, m);
      ToClient(s.(sys := s.sys[mem.value := m]), mem.value, {mem.value});
      assert {mem.value} - {mem.value} == {};
    }
  }

  lemma EvictedValid(s: State, b: Block)
    requires Body(s, {b}) && LruOk(s.lru, s.chains) && HasVictim(s)
    ensures Body(Evicted(s), {b}) && LruOk(Evicted(s).lru, Evicted(s).chains)
  {
    var i := s.lru[|s.lru| - 1];
    var c := s.chains[i][0];
    TakenBody(s, i, {b});
    ToSystem(Taken(s, i), c, {b} + {c});
    assert {b} + {c} - {c} == {b};
    LruPopped(s.lru, s.chains, i);
    BodyLru(Taken(s, i).(sys := s.sys - {c}), Evicted(s).lru, {b});
  }

  lemma CachedValid(s: State, b: Block, i: nat)
    requires Body(s, {b}) && LruOk(s.lru, s.chains) && s.sys[b].tag == i && s.count < MAX_COUNT
    ensures Valid(Cached(s, b, i))
  {
    CachedBody(s, b, i);
    LruCached(s.lru, s.chains, i, b);
  }

  /**
   A free keeps the invariant and is a `free`: exactly that block leaves the
   client, and the blocks of the others stay as they are. The block is kept
   for later or given back, and so is at most one other that no client holds.
   */
  lemma FreeRefines(s: State, b: Block)
    requires Valid(s) && b in s.live
    ensures
      var s' := Free(s, b);
      && Valid(s') && s'.live == s.live - {b}
      && (forall c :: c in s'.live ==> s'.sys[c] == s.sys[c])
      && (forall c :: c in s'.sys ==> c in s.sys)
      && (b in s'.sys <==> s.sys[b].tag >= 0)
  {
    var u := s.(live := s.live - {b});
    FromClient(s, b);
    var i := s.sys[b].tag;
    if i < 0 {
      ToSystem(u, b, {b});
      assert {b} - {b} == {};
    } else if s.count >= MAX_COUNT {
      VictimFound(s);
      var v := s.lru[|s.lru| - 1];
      assert ChainOk(s, v) && s.chains[v][0] in s.chains[v];
      EvictedValid(u, b);
      CachedValid(Evicted(u), b, i);
    } else {
      CachedValid(u, b, i);
    }
  }

  lemma Relabelled(s: State, b: Block, size: nat, mem: Block)
    requires Valid(s) && b in s.live && mem !in s.sys - {b} && size < WORD
    ensures
      var m := Mem(Asked(size), if 1 <= Index(size) <= CLASSES then Index(size) - 1 else -1);
      Valid(s.(sys := (s.sys - {b})[mem := m], live := s.live - {b} + {mem}))
  {
    var u := s.(live := s.live - {b});
    var m := Mem(Asked(size), if 1 <= Index(size) <= CLASSES then Index(size) - 1 else -1);
    FromClient(s, b);
    ToSystem(u, b, {b});
    assert {b} - {b} == {};
    Sizes(size);
    var v := u.(sys := s.sys - {b});
    FromSystem(v, mem, m);
    ToClient(v.(sys := v.sys[mem := m]), mem, {mem});
    assert {mem} - {mem} == {};
  }

  /**
   A reallocation keeps the invariant and is a `realloc`: size 0 frees; if the
   system refuses nothing changes; else the client holds the block it got
   instead of the one it gave, big enough unless the size is at the very end
   of the address space.
   */
  lemma ReallocRefines(s: State, b: Block, size: nat, mem: Option<Block>)
    requires Valid(s) && b in s.live && size < WORD && (mem.Some? ==> mem.value !in s.sys - {b})
    ensures
      var (s', r) := Realloc(s, b, size, mem);
      && Valid(s')
      && (size == 0 ==> r.None? && s' == Free(s, b))
      && (size > 0 && r.None? ==> s' == s)
      && (r.Some? ==> r.value !in s.live - {b} && s'.live == s.live - {b} + {r.value})
      && (r.Some? ==> (s'.sys[r.value].cap >= size <==> size <= WORD - 32))
      && (forall c :: c in s.live && c != b ==> c in s'.sys && s'.sys[c] == s.sys[c])
  {
    if size == 0 {
      FreeRefines(s, b);
    } else if mem.Some? {
      Relabelled(s, b, size, mem.value);
      AskedEnough(size);
    }
  }

  lemma AskedEnough(size: nat)
    requires 0 < size < WORD
    ensures Asked(size) >= size <==> size <= WORD - 32
  {
    if size + 15 >= WORD {
      assert (size + 15) % WORD == size + 15 - WORD;
    }
  }

  // ---------- Whole runs ----------

  datatype Call = AllocCall(size: nat, mem: Option<Block>) | ReallocCall(b: Block, size: nat, mem: Option<Block>) | FreeCall(b: Block)

  /** Clients give back and resize what they hold; the system hands out what it has not handed out already. */
  ghost predicate Allowed(s: State, call: Call) {
    match call
    case AllocCall(size, mem) => size < WORD && Offer(s, mem)
    case ReallocCall(b, size, mem) => b in s.live && size < WORD && (mem.Some? ==> mem.value !in s.sys - {b})
    case FreeCall(b) => b in s.live
  }

  ghost function Next(s: State, call: Call): State
    requires Valid(s) && Allowed(s, call)
  {
    match call
    case AllocCall(size, mem) => Alloc(s, size, mem).0
    case ReallocCall(b, size, mem) => Realloc(s, b, size, mem).0
    case FreeCall(b) => Free(s, b)
  }

  /** One call; what it does is defined on valid states, and `EveryRun` shows that there are no others. */
  ghost predicate Step(s: State, call: Call, s': State) {
    Valid(s) ==> Allowed(s, call) && s' == Next(s, call)
  }

  ghost predicate IsRun(ss: seq<State>, calls: seq<Call>) {
    |ss| == |calls| + 1 && forall i :: 0 <= i < |calls| ==> Step(ss[i], calls[i], ss[i + 1])
  }

  /** `hev_memory_allocator_slice_new` */
  ghost function Empty(): State {
    State(seq(CLASSES, _ => []), [], 0, map[], {})
  }

  lemma {:induction false} TotalEmpty(chains: seq<seq<Block>>)
    requires forall i :: 0 <= i < |chains| ==> chains[i] == []
    ensures Total(chains) == 0
  {
    if chains != [] {
      TotalEmpty(chains[1..]);
    }
  }

  lemma EmptyValid()
    ensures Valid(Empty())
  {
    TotalEmpty(Empty().chains);
    forall i | 0 <= i < CLASSES
      ensures ChainOk(Empty(), i)
    {
    }
  }

  /**
   After every sequence of calls: the free lists hold `count` blocks, at most
   1000; a class is in the LRU list exactly when its free list is not empty;
   no block is both cached and a client's, or cached twice; every block of
   class `i` has at least (i + 1) * 16 bytes; and no block is lost.
   */
  lemma {:induction false} EveryRun(ss: seq<State>, calls: seq<Call>, n: nat)
    requires IsRun(ss, calls) && ss[0] == Empty() && n < |ss|
    ensures Valid(ss[n])
  {
    if n == 0 {
      EmptyValid();
    } else {
      EveryRun(ss, calls, n - 1);
      var s, call := ss[n - 1], calls[n - 1];
      assert Step(s, call, ss[n - 1 + 1]);
      match call
      case AllocCall(size, mem) => AllocRefines(s, size, mem);
      case ReallocCall(b, size, mem) => ReallocRefines(s, b, size, mem);
      case FreeCall(b) => FreeRefines(s, b);
    }
  }

  // ---------- Which sizes are served ----------

  ghost predicate Enough(answer: (State, Option<Block>), size: nat) {
    answer.1.Some? ==> answer.1.value in answer.0.sys && answer.0.sys[answer.1.value].cap >= size
  }

  /** Every block an allocation of this size can return is big enough. */
  ghost predicate AlwaysEnough(size: nat) {
    forall s, mem | Valid(s) && Offer(s, mem) :: Enough(Alloc(s, size, mem), size)
  }

  /** A state with one cached block, of class `i` and no bigger than it has to be. */
  ghost function OneCached(i: nat): State
    requires i < CLASSES
  {
    Cached(Empty().(sys := map[][0 := Mem((i + 1) * ALIGN, i)]), 0, i)
  }

  lemma OneCachedValid(i: nat)
    requires i < CLASSES
    ensures Valid(OneCached(i))
  {
    EmptyValid();
    FromSystem(Empty(), 0, Mem((i + 1) * ALIGN, i));
    CachedValid(Empty().(sys := map[][0 := Mem((i + 1) * ALIGN, i)]), 0, i);
  }

  /** One block, of class `i`, with a client. */
  ghost function OneLive(i: nat): State
    requires i < CLASSES
  {
    Empty().(sys := map[][0 := Mem((i + 1) * ALIGN, i)], live := {0})
  }

  lemma WholeUnits(n: nat)
    requires n <= CLASSES
    ensures Aligned(n * ALIGN) == n * ALIGN && Index(n * ALIGN) == n && Asked(n * ALIGN) == n * ALIGN
  {
    assert (n * ALIGN + 15) / ALIGN == n;
  }

  lemma FirstAlloc(i: nat)
    requires i < CLASSES && Valid(Empty())
    ensures Alloc(Empty(), (i + 1) * ALIGN, Some(0)) == (OneLive(i), Some(0))
  {
    hide Valid, Aligned, Index, Asked;
    WholeUnits(i + 1);
    assert Empty().chains[i] == [] && Empty().live + {0} == {0};
  }

  lemma FirstFree(i: nat)
    requires i < CLASSES && Valid(OneLive(i))
    ensures Free(OneLive(i), 0) == OneCached(i)
  {
    hide Valid;
    assert OneLive(i).live - {0} == {};
  }

  /** The state is what one allocation and its free leave behind. */
  lemma OneCachedReached(i: nat)
    requires i < CLASSES
    ensures Valid(Empty()) && Alloc(Empty(), (i + 1) * ALIGN, Some(0)) == (OneLive(i), Some(0))
    ensures Valid(OneLive(i)) && Free(OneLive(i), 0) == OneCached(i)
  {
    EmptyValid();
    AllocRefines(Empty(), (i + 1) * ALIGN, Some(0));
    hide Valid, Alloc, Free;
    FirstAlloc(i);
    FirstFree(i);
  }

  lemma WrapFails(size: nat)
    requires size < WORD && Aligned(size) / ALIGN == WORD / ALIGN - 1
    ensures !AlwaysEnough(size)
  {
    hide Valid, Aligned;
    EmptyValid();
    assert Index(size) == -1;
    var answer := Alloc(Empty(), size, Some(0));
    assert !Enough(answer, size);
  }

  lemma LooksSmallFails(size: nat)
    requires size < WORD && 1 <= Index(size) <= CLASSES && Index(size) * ALIGN < size
    ensures !AlwaysEnough(size)
  {
    OneCachedValid(Index(size) - 1);
    var answer := Alloc(OneCached(Index(size) - 1), size, None);
    hide Valid;
    assert !Enough(answer, size);
  }

  lemma NotServed(size: nat)
    requires size < WORD && !Served(size)
    ensures !AlwaysEnough(size)
  {
    hide AlwaysEnough;
    if Aligned(size) / ALIGN == WORD / ALIGN - 1 {
      WrapFails(size);
    } else {
      LooksSmallFails(size);
    }
  }

  /** An allocation is sure to return enough bytes exactly for the sizes served. */
  lemma ServedExactly(size: nat)
    requires size < WORD
    ensures AlwaysEnough(size) <==> Served(size)
  {
    if Served(size) {
      forall s, mem | Valid(s) && Offer(s, mem)
        ensures Enough(Alloc(s, size, mem), size)
      {
        AllocRefines(s, size, mem);
      }
    } else {
      NotServed(size);
    }
  }

  /** The smallest size that is not served is a little over 64 GiB; everything up to there is. */
  lemma SmallServed(size: nat)
    ensures size <= 0x10_0000_0000 ==> Served(size)
    ensures !Served(0x10_0000_0001)
  {
  }

  // ---------- The end ----------

  /** The free lists, in the order of the LRU list. */
  ghost function Flat(lru: seq<nat>, chains: seq<seq<Block>>): seq<Block>
    requires forall k :: 0 <= k < |lru| ==> lru[k] < |chains|
  {
    if lru == [] then [] else Flat(lru[..|lru| - 1], chains) + chains[lru[|lru| - 1]]
  }

  lemma Joined<N>(a: seq<N>, b: seq<N>)
    requires NoRepeat(a) && NoRepeat(b) && forall x :: x in b ==> x !in a
    ensures NoRepeat(a + b)
    ensures forall x :: x in a + b <==> x in a || x in b
  {
    forall i, j | 0 <= i < j < |a + b|
      ensures (a + b)[i] != (a + b)[j]
    {
      if i < |a| <= j {
        assert (a + b)[j] in b;
      }
    }
  }

  lemma {:induction false} FlatOnce(s: State, n: nat)
    requires Valid(s) && n <= |s.lru|
    requires forall k :: 0 <= k < |s.lru| ==> s.lru[k] < CLASSES
    ensures NoRepeat(Flat(s.lru[..n], s.chains))
    ensures forall b :: b in Flat(s.lru[..n], s.chains) <==> b in s.sys && s.sys[b].tag in s.lru[..n] && b in s.chains[s.sys[b].tag]
  {
    if n > 0 {
      FlatOnce(s, n - 1);
      var i := s.lru[n - 1];
      assert i in s.lru && ChainOk(s, i);
      assert s.lru[..n][..n - 1] == s.lru[..n - 1];
      assert forall j :: j in s.lru[..n] <==> j == i || j in s.lru[..n - 1];
      assert i !in s.lru[..n - 1];
      Joined(Flat(s.lru[..n - 1], s.chains), s.chains[i]);
    }
  }

  lemma LruBound(s: State)
    requires Valid(s)
    ensures forall k :: 0 <= k < |s.lru| ==> s.lru[k] < |s.chains|
  {
    assert forall k :: 0 <= k < |s.lru| ==> s.lru[k] in s.lru;
  }

  /** `_hev_memory_allocator_destroy` frees each cached block once, and no other: clients keep theirs. */
  lemma DestroyOnce(s: State)
    requires Valid(s) && forall k :: 0 <= k < |s.lru| ==> s.lru[k] < |s.chains|
    ensures NoRepeat(Flat(s.lru, s.chains))
    ensures forall b :: b in Flat(s.lru, s.chains) <==> b in s.sys && b !in s.live
  {
    FlatOnce(s, |s.lru|);
    assert s.lru[..|s.lru|] == s.lru;
    forall b | b in s.sys && s.sys[b].tag >= 0 && b in s.chains[s.sys[b].tag]
      ensures b !in s.live && s.sys[b].tag in s.lru
    {
      assert ChainOk(s, s.sys[b].tag);
    }
  }
}
