/**
 What the slice allocator does beyond being a `malloc`: which block a call
 gets, what is given back to the system and when, and that the LRU list is
 the order in which the size classes were last used.
 */
module SliceRuns {
  import opened Common
  import opened Links
  import opened RbShape
  import opened Recency
  import opened SliceModel

  // ---------- Single calls ----------

  /** The class in the header of a block for this size, or -1. */
  ghost function ClassOf(size: nat): int {
    if 1 <= Index(size) <= 256 then Index(size) - 1 else -1
  }

  /** Sizes up to 4096 bytes have a class of 16 bytes each, and sizes above, up to 64 GiB, have none. */
  lemma ClassesAre(size: nat)
    ensures 1 <= size <= 4096 ==> ClassOf(size) == (size - 1) / 16 && Asked(size) == 16 * ((size - 1) / 16 + 1)
    ensures 4096 < size <= 0x10_0000_0000 ==> ClassOf(size) == -1
    ensures size == 0 ==> Index(size) == 0
  {
  }

  /**
   An allocation takes the block freed last of its class, if one is cached, and
   asks the system for no more; else it takes what the system gives, labelled
   with its class. It fails exactly for a size of no units, or with nothing
   cached and nothing from the system.
   */
  lemma AllocExactly(s: State, size: nat, mem: Option<Block>)
    requires Valid(s) && Offer(s, mem) && size < WORD
    ensures
      var (s', r) := Alloc(s, size, mem);
      var i := ClassOf(size);
      var hit := i >= 0 && s.chains[i] != [];
      && (r.None? <==> Index(size) == 0 || (!hit && mem.None?))
      && (hit ==> r == Some(s.chains[i][0]) && s'.sys == s.sys && s'.chains == s.chains[i := s.chains[i][1..]])
      && (!hit ==> s'.chains == s.chains && s'.lru == s.lru)
      && (!hit && r.Some? ==> r == mem && s'.sys == s.sys[mem.value := Mem(Asked(size), i)])
      && (r.Some? ==> r.value in s'.sys && s'.sys[r.value].tag == i)
  {
    var i := ClassOf(size);
    if i >= 0 {
      assert ChainOk(s, i);
    }
    hide Body, LruOk, Without, Asked, Index;
  }

  /** The class at the end of the LRU list. */
  ghost function Victim(s: State): (v: nat)
    requires HasVictim(s)
    ensures v < |s.chains| && s.chains[v] != []
  {
    s.lru[|s.lru| - 1]
  }

  ghost function ChainsLeft(s: State): seq<seq<Block>>
    requires HasVictim(s)
  {
    s.chains[Victim(s) := s.chains[Victim(s)][1..]]
  }

  /**
   A free keeps a block that has a class and gives back one that has none. At
   1000 cached blocks, and only then, it first gives back the block freed last
   of the class at the end of the LRU list.
   */
  lemma FreeExactly(s: State, b: Block)
    requires Valid(s) && b in s.live
    ensures
      var s', i := Free(s, b), s.sys[b].tag;
      && (i < 0 ==> s'.sys == s.sys - {b} && s'.chains == s.chains && s'.lru == s.lru)
      && (i >= 0 && s.count < 1000 ==> s'.sys == s.sys && s'.chains == s.chains[i := [b] + s.chains[i]])
      && (i >= 0 && s.count >= 1000 ==>
            && HasVictim(s) && s'.sys == s.sys - {s.chains[Victim(s)][0]}
            && s'.chains == ChainsLeft(s)[i := [b] + ChainsLeft(s)[i]])
  {
    if s.count > 0 {
      VictimFound(s);
    }
    hide LruOk, Without;
  }

  /** The next allocation of its class gets back the block just freed, and nothing has gone to or come from the system. */
  lemma FreeThenAlloc(s: State, b: Block, size: nat, mem: Option<Block>)
    requires Valid(s) && b in s.live && size < WORD && ClassOf(size) == s.sys[b].tag >= 0 && s.count < 1000 && Offer(s, mem)
    ensures Valid(Free(s, b)) && Offer(Free(s, b), mem)
    ensures
      var (s', r) := Alloc(Free(s, b), size, mem);
      r == Some(b) && s'.chains == s.chains && s'.sys == s.sys && s'.live == s.live && s'.count == s.count
  {
    FreeRefines(s, b);
    FreeExactly(s, b);
    AllocExactly(Free(s, b), size, mem);
    AllocRefines(Free(s, b), size, mem);
    var i := s.sys[b].tag;
    assert ([b] + s.chains[i])[1..] == s.chains[i];
    assert s.chains[i := [b] + s.chains[i]][i := s.chains[i]] == s.chains;
    hide Free, Alloc, Body, LruOk, Index;
  }

  /** A reallocation to another size gives the block the class of that size. */
  lemma ReallocLabels(s: State, b: Block, size: nat, mem: Option<Block>)
    requires Valid(s) && b in s.live && 0 < size < WORD && mem.Some?
    ensures
      var (s', r) := Realloc(s, b, size, mem);
      r == mem && s'.sys == (s.sys - {b})[mem.value := Mem(Asked(size), ClassOf(size))] && s'.chains == s.chains && s'.lru == s.lru
  {
    hide Body, LruOk, Index, Asked;
  }

  // ---------- The LRU list ----------

  ghost function FreedBy(call: Call): Option<Block> {
    match call
    case FreeCall(b) => Some(b)
    case ReallocCall(b, size, _) => if size == 0 then Some(b) else None
    case AllocCall(_, _) => None
  }

  /** Nothing of class `i` is cached once a free at the cap has made room. */
  ghost predicate Cleared(s: State, i: nat) {
    i < |s.chains| && (s.chains[i] == [] || (s.count >= 1000 && HasVictim(s) && Victim(s) == i && |s.chains[i]| == 1))
  }

  /** A call uses a class: it takes a block of it from the cache, or caches the first one. */
  ghost predicate Uses(s: State, call: Call, i: nat) {
    || (call.AllocCall? && ClassOf(call.size) == i && i < |s.chains| && s.chains[i] != [])
    || (FreedBy(call).Some? && FreedBy(call).value in s.sys && s.sys[FreedBy(call).value].tag == i && Cleared(s, i))
  }

  /** The class from whose free list an allocation is served, if it is. */
  ghost function HitOf(s: State, size: nat): (i: Option<nat>)
    requires |s.chains| == CLASSES
    ensures i.Some? ==> i.value < CLASSES && s.chains[i.value] != [] && i.value == ClassOf(size)
    ensures i.None? ==> ClassOf(size) < 0 || s.chains[ClassOf(size)] == []
  {
    if ClassOf(size) >= 0 && s.chains[ClassOf(size)] != [] then Some(ClassOf(size)) else None
  }

  lemma AllocLru(s: State, size: nat, mem: Option<Block>)
    requires Valid(s) && Offer(s, mem) && size < WORD
    ensures
      var lru, hit := Alloc(s, size, mem).0.lru, HitOf(s, size);
      lru == if hit.None? then s.lru
             else if |s.chains[hit.value]| == 1 then Without(s.lru, hit.value) else [hit.value] + Without(s.lru, hit.value)
  {
    hide LruOk, Without, Asked, Index;
  }

  /** The list once a free at the cap has made room. */
  ghost function LruLeft(s: State): seq<nat> {
    if s.count >= 1000 && HasVictim(s) && |s.chains[Victim(s)]| == 1 then Without(s.lru, Victim(s)) else s.lru
  }

  lemma FreeLru(s: State, b: Block)
    requires Valid(s) && b in s.live && s.sys[b].tag >= 0
    ensures Free(s, b).lru == if Cleared(s, s.sys[b].tag) then [s.sys[b].tag as nat] + LruLeft(s) else LruLeft(s)
  {
    if s.count > 0 {
      VictimFound(s);
    }
    hide LruOk, Without, Body;
  }

  /** The step at which a class was last used. */
  ghost function LastUse(ss: seq<State>, calls: seq<Call>, n: nat, i: nat): nat
    requires n <= |calls| < |ss|
  {
    if n == 0 then 0 else if Uses(ss[n - 1], calls[n - 1], i) then n else LastUse(ss, calls, n - 1, i)
  }

  ghost function LastUses(ss: seq<State>, calls: seq<Call>, n: nat): map<nat, nat>
    requires n <= |calls| < |ss|
  {
    map i: nat | 0 <= i < 256 :: LastUse(ss, calls, n, i)
  }

  /** A call uses one class at most. */
  lemma UsesOne(s: State, call: Call, i: nat, j: nat)
    requires Uses(s, call, i) && Uses(s, call, j)
    ensures i == j
  {
  }

  ghost predicate Drops(l: seq<nat>, l': seq<nat>, x: nat) {
    l' == Without(l, x)
  }

  /** What a call has left of the list, and the list it makes of that: the class used, if it stays, is in front. */
  ghost predicate LruBy(s: State, call: Call, base: seq<nat>, lru: seq<nat>) {
    && (base == s.lru || exists x :: Drops(s.lru, base, x))
    && (forall i :: i in base ==> !Uses(s, call, i))
    && (lru == base || (lru != [] && lru[0] < 256 && Uses(s, call, lru[0]) && lru == [lru[0]] + base))
  }

  lemma LruAlloc(s: State, call: Call)
    requires Valid(s) && Allowed(s, call) && call.AllocCall?
    ensures exists base :: LruBy(s, call, base, Next(s, call).lru)
  {
    var hit := HitOf(s, call.size);
    AllocLru(s, call.size, call.mem);
    if hit.Some? {
      WithoutMembers(s.lru, hit.value);
      hide Alloc, Body, Index, Without;
      assert Drops(s.lru, Without(s.lru, hit.value), hit.value);
      assert LruBy(s, call, Without(s.lru, hit.value), Next(s, call).lru);
    } else {
      hide Alloc, Body, Index;
      assert LruBy(s, call, s.lru, Next(s, call).lru);
    }
  }

  lemma LruLeftUnused(s: State, call: Call, b: Block)
    requires Valid(s) && FreedBy(call) == Some(b) && b in s.live
    ensures LruLeft(s) == s.lru || exists x :: Drops(s.lru, LruLeft(s), x)
    ensures forall i :: i in LruLeft(s) ==> !Uses(s, call, i)
  {
    if HasVictim(s) {
      WithoutMembers(s.lru, Victim(s));
      assert LruLeft(s) == s.lru || Drops(s.lru, LruLeft(s), Victim(s));
    }
    hide Body;
  }

  lemma LruFree(s: State, call: Call, b: Block)
    requires Valid(s) && Allowed(s, call) && FreedBy(call) == Some(b) && b in s.live
    ensures exists base :: LruBy(s, call, base, Free(s, b).lru)
  {
    if s.sys[b].tag >= 0 {
      FreeLru(s, b);
      LruLeftUnused(s, call, b);
      hide Free, LruOk, Without, LruLeft, HasVictim;
      assert LruBy(s, call, LruLeft(s), Free(s, b).lru);
    } else {
      assert LruBy(s, call, s.lru, Free(s, b).lru);
    }
  }

  lemma LruStep(s: State, call: Call)
    requires Valid(s) && Allowed(s, call)
    ensures exists base :: LruBy(s, call, base, Next(s, call).lru)
  {
    match call
    case AllocCall(size, mem) => LruAlloc(s, call);
    case FreeCall(b) =>
      LruFree(s, call, b);
      assert Next(s, call) == Free(s, b);
    case ReallocCall(b, size, mem) =>
      if size == 0 {
        LruFree(s, call, b);
        assert Next(s, call) == Free(s, b);
      } else {
        assert LruBy(s, call, s.lru, Next(s, call).lru);
      }
  }

  /** After every sequence of calls, the LRU list is in the order of the last uses of its classes, latest first. */
  lemma {:induction false} LruByUse(ss: seq<State>, calls: seq<Call>, n: nat)
    requires IsRun(ss, calls) && ss[0] == Empty() && n < |ss|
    ensures NewestFirst(ss[n].lru, LastUses(ss, calls, n), n + 1)
  {
    hide Next, Valid;
    if n > 0 {
      var s, call := ss[n - 1], calls[n - 1];
      LruByUse(ss, calls, n - 1);
      EveryRun(ss, calls, n - 1);
      assert Step(s, call, ss[n - 1 + 1]);
      LruStep(s, call);
      var base :| LruBy(s, call, base, ss[n].lru);
      LruShift(ss, calls, n, base);
    }
  }

  lemma LruShift(ss: seq<State>, calls: seq<Call>, n: nat, base: seq<nat>)
    requires 0 < n <= |calls| < |ss| && NewestFirst(ss[n - 1].lru, LastUses(ss, calls, n - 1), n)
    requires LruBy(ss[n - 1], calls[n - 1], base, ss[n].lru)
    ensures NewestFirst(ss[n].lru, LastUses(ss, calls, n), n + 1)
  {
    var f, g, lru := LastUses(ss, calls, n - 1), LastUses(ss, calls, n), ss[n - 1].lru;
    if base != lru {
      var x :| Drops(lru, base, x);
      Shortened(lru, f, n, x);
    }
    hide Uses, NewestFirst, Without;
    LatestIn(base, f, n);
    Shifted(base, f, g, n, n);
    if ss[n].lru != base {
      PutInFront(base, ss[n].lru[0], g, n);
    } else {
      Shifted(base, f, g, n, n + 1);
    }
  }

  lemma LatestIn(l: seq<nat>, f: map<nat, nat>, n: nat)
    requires NewestFirst(l, f, n)
    ensures forall i :: i in l ==> i in f
  {
  }

  /** So what a free at the cap gives back is of the class that, of those with anything cached, was used longest ago. */
  lemma VictimOldest(ss: seq<State>, calls: seq<Call>, n: nat, i: nat)
    requires IsRun(ss, calls) && ss[0] == Empty() && n < |ss| && HasVictim(ss[n]) && i < |ss[n].chains| && ss[n].chains[i] != []
    ensures i == Victim(ss[n]) || LastUse(ss, calls, n, i) > LastUse(ss, calls, n, Victim(ss[n]))
  {
    LruByUse(ss, calls, n);
    EveryRun(ss, calls, n);
    assert i in ss[n].lru;
    var k :| 0 <= k < |ss[n].lru| && ss[n].lru[k] == i;
    hide IsRun, Body, LastUse;
  }
}
