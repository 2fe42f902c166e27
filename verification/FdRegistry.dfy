/**
 The registry of virtual descriptors on Windows (`hev-sys-fd.c`): slots for
 sockets, a hint below which all slots are in use, and generations that tell
 the registrations of a slot apart. Each call runs under the registry's lock.
 */
module FdRegistry {
  import opened Common

  const INITIAL_CAP: nat := 256
  const MAX_FDS: nat := 0x10_0000
  const FD_BASE: nat := 0x4000_0000
  const GENS: nat := 0x1000_0000_0000

  type Socket = nat

  /** A slot: its socket, if it is in use, and its generation. */
  datatype Slot = Slot(socket: Option<Socket>, gen: nat)

  // ---------- Values ----------

  /** The slots, and how often each has been registered: `serials` is history, the generation is its remainder. */
  datatype Registry = Registry(slots: seq<Slot>, serials: seq<nat>)

  ghost predicate Consistent(r: Registry) {
    && |r.serials| == |r.slots| <= MAX_FDS
    && forall i :: 0 <= i < |r.slots| ==> r.slots[i].gen == r.serials[i] % GENS
  }

  /** All slots from `from` up to `to` are in use. */
  ghost predicate Full(slots: seq<Slot>, from: int, to: int)
    requires 0 <= from && to <= |slots|
  {
    forall i :: from <= i < to ==> slots[i].socket.Some?
  }

  /** `reg_index_from_fd` */
  function IndexOf(fd: int): (r: int)
    ensures r >= 0 <==> FD_BASE <= fd < FD_BASE + MAX_FDS
    ensures r >= 0 ==> fd == FD_BASE + r && r < MAX_FDS
  {
    if fd < FD_BASE || fd >= FD_BASE + MAX_FDS then -1 else fd - FD_BASE
  }

  /** The capacity after `reg_grow_locked`, or none if it refuses. */
  function Grown(cap: nat, need: nat): (r: Option<nat>)
    requires cap <= MAX_FDS
    ensures r.Some? <==> need < MAX_FDS && cap < MAX_FDS
    ensures r.Some? ==> cap < r.value <= 0x10_0000 && (cap <= need ==> need < r.value)
    ensures r.Some? && r.value < 0x10_0000 ==> r.value >= 2 * cap && (cap == 0 ==> r.value >= 256)
  {
    if need >= MAX_FDS then None
    else
      var twice := if cap != 0 then cap * 2 else INITIAL_CAP;
      var enough := if twice <= need then need + 1 else twice;
      var capped := if enough > MAX_FDS then MAX_FDS else enough;
      if capped <= cap then None else Some(capped)
  }

  ghost function Extended(r: Registry, cap: nat): Registry
    requires |r.slots| <= cap && |r.serials| == |r.slots|
  {
    Registry(r.slots + seq(cap - |r.slots|, _ => Slot(None, 0)), r.serials + seq(cap - |r.slots|, _ => 0))
  }

  /** Slot `i` is written, with a socket or with none: a new generation. */
  ghost function Put(r: Registry, i: nat, s: Option<Socket>): Registry
    requires i < |r.slots| == |r.serials|
  {
    Registry(r.slots[i := Slot(s, (r.slots[i].gen + 1) % GENS)], r.serials[i := r.serials[i] + 1])
  }

  ghost function Closed(r: Registry, i: nat): Registry
    requires i < |r.slots|
  {
    r.(slots := r.slots[i := r.slots[i].(socket := None)])
  }

  lemma SerialStep(serial: nat)
    ensures (serial % GENS + 1) % GENS == (serial + 1) % GENS
  {
  }

  lemma PutConsistent(r: Registry, i: nat, s: Option<Socket>)
    requires Consistent(r) && i < |r.slots|
    ensures Consistent(Put(r, i, s))
  {
    SerialStep(r.serials[i]);
  }

  /** `hev_sys_fd_to_token` */
  ghost function Token(r: Registry, i: nat): nat
    requires i < |r.slots|
  {
    r.slots[i].gen * MAX_FDS + i
  }

  /** `hev_sys_token_to_socket` */
  ghost function Resolved(r: Registry, token: nat): Option<Socket> {
    var i := token % MAX_FDS;
    if i < |r.slots| && r.slots[i].gen == token / MAX_FDS then r.slots[i].socket else None
  }

  lemma TokenParts(gen: nat, i: nat)
    requires i < MAX_FDS
    ensures (gen * MAX_FDS + i) % MAX_FDS == i && (gen * MAX_FDS + i) / MAX_FDS == gen
  {
  }

  // ---------- Runs ----------

  datatype Change = Grow(cap: nat) | Register(i: nat, s: Option<Socket>) | Close(i: nat)

  ghost predicate Enabled(r: Registry, c: Change) {
    match c
    case Grow(cap) => |r.slots| <= cap <= MAX_FDS
    case Register(i, _) => i < |r.slots|
    case Close(i) => i < |r.slots|
  }

  ghost function Next(r: Registry, c: Change): Registry
    requires Consistent(r) && Enabled(r, c)
  {
    match c
    case Grow(cap) => Extended(r, cap)
    case Register(i, s) => Put(r, i, s)
    case Close(i) => Closed(r, i)
  }

  ghost predicate Step(r: Registry, c: Change, r': Registry) {
    Consistent(r) ==> Enabled(r, c) && r' == Next(r, c)
  }

  ghost predicate IsRun(rs: seq<Registry>, cs: seq<Change>) {
    |rs| == |cs| + 1 && forall i :: 0 <= i < |cs| ==> Step(rs[i], cs[i], rs[i + 1])
  }

  /** How often slot `i` has been written in the first `n` changes. */
  ghost function Writes(cs: seq<Change>, n: nat, i: nat): nat
    requires n <= |cs|
  {
    if n == 0 then 0 else Writes(cs, n - 1, i) + (if cs[n - 1].Register? && cs[n - 1].i == i then 1 else 0)
  }

  /** What the changes themselves leave in slot `i`, which at the start holds `start`. */
  ghost function Holds(cs: seq<Change>, n: nat, i: nat, start: Option<Socket>): Option<Socket>
    requires n <= |cs|
  {
    if n == 0 then start
    else match cs[n - 1]
      case Register(j, s) => if i == j then s else Holds(cs, n - 1, i, start)
      case Close(j) => if i == j then None else Holds(cs, n - 1, i, start)
      case Grow(_) => Holds(cs, n - 1, i, start)
  }

  lemma StepSlot(r: Registry, c: Change, i: nat)
    requires Consistent(r) && Enabled(r, c) && i < |r.slots|
    ensures
      var r' := Next(r, c);
      && Consistent(r') && i < |r'.slots|
      && r'.slots[i].socket == (match c { case Register(j, s) => if i == j then s else r.slots[i].socket
                                          case Close(j) => if i == j then None else r.slots[i].socket
                                          case Grow(_) => r.slots[i].socket })
      && r'.serials[i] == r.serials[i] + (if c.Register? && c.i == i then 1 else 0)
      && (c.Grow? ==> |r'.slots| == c.cap && forall j :: |r.slots| <= j < c.cap ==> r'.slots[j] == Slot(None, 0))
  {
    if c.Register? {
      PutConsistent(r, c.i, c.s);
    }
  }

  /** At any time a slot holds what the last change that named it put there, and its serial counts the writes to it. */
  lemma {:induction false} SlotIs(rs: seq<Registry>, cs: seq<Change>, i: nat, n: nat)
    requires IsRun(rs, cs) && Consistent(rs[0]) && i < |rs[0].slots| && n < |rs|
    ensures Consistent(rs[n]) && i < |rs[n].slots|
    ensures rs[n].slots[i].socket == Holds(cs, n, i, rs[0].slots[i].socket)
    ensures rs[n].serials[i] == rs[0].serials[i] + Writes(cs, n, i)
  {
    if n > 0 {
      SlotIs(rs, cs, i, n - 1);
      assert Step(rs[n - 1], cs[n - 1], rs[n - 1 + 1]);
      StepSlot(rs[n - 1], cs[n - 1], i);
    }
  }

  lemma SameRemainder(a: nat, k: nat)
    ensures (a + k) % GENS == a % GENS <==> k % GENS == 0
  {
    var q, r := a / GENS, k / GENS;
    assert a + k == (q + r) * GENS + (a % GENS + k % GENS);
    if a % GENS + k % GENS < GENS {
      RemainderOf(q + r, a % GENS + k % GENS);
    } else {
      RemainderOf(q + r + 1, a % GENS + k % GENS - GENS);
    }
  }

  lemma RemainderOf(q: nat, r: nat)
    requires r < GENS
    ensures (q * GENS + r) % GENS == r
  {
  }

  /** An old token gives what its slot holds exactly if the writes since then are a multiple of 2^44. */
  lemma TokenGives(r: Registry, r': Registry, i: nat, writes: nat)
    requires Consistent(r) && Consistent(r') && i < |r.slots| && i < |r'.slots| && r'.serials[i] == r.serials[i] + writes
    ensures Resolved(r', Token(r, i)) == if writes % 0x1000_0000_0000 == 0 then r'.slots[i].socket else None
  {
    TokenParts(r.slots[i].gen, i);
    SameRemainder(r.serials[i], writes);
  }

  /** So after 1 to 2^44 - 1 writes it gives nothing, and after 2^44 whatever the slot holds then. */
  lemma TokenWraps(r: Registry, r': Registry, i: nat, writes: nat)
    requires Consistent(r) && Consistent(r') && i < |r.slots| && i < |r'.slots| && r'.serials[i] == r.serials[i] + writes
    ensures writes == 0 || writes == 0x1000_0000_0000 ==> Resolved(r', Token(r, i)) == r'.slots[i].socket
    ensures 0 < writes < 0x1000_0000_0000 ==> Resolved(r', Token(r, i)) == None
  {
    TokenGives(r, r', i, writes);
    hide Resolved, Token, Consistent;
  }

  /** Slot `i` has not been closed in the first `n` changes. */
  ghost predicate Kept(cs: seq<Change>, n: nat, i: nat)
    requires n <= |cs|
  {
    forall k :: 0 <= k < n ==> cs[k] != Close(i)
  }

  lemma {:induction false} HoldsStart(cs: seq<Change>, n: nat, i: nat, start: Option<Socket>)
    requires n <= |cs| && Writes(cs, n, i) == 0
    ensures Holds(cs, n, i, start) == if Kept(cs, n, i) then start else None
  {
    if n > 0 {
      HoldsStart(cs, n - 1, i, start);
    }
  }

  /**
   A token taken from an open slot, resolved any number of changes later: while
   the slot has not been written again it gives its own socket, or nothing if
   that has been closed; after later writes it gives nothing, as long as
   there have been fewer than 2^44 of them, and after exactly 2^44 it gives
   whatever the slot holds.
   */
  lemma TokenHonest(rs: seq<Registry>, cs: seq<Change>, i: nat, n: nat)
    requires IsRun(rs, cs) && Consistent(rs[0]) && i < |rs[0].slots| && rs[0].slots[i].socket.Some? && n < |rs|
    ensures
      var token, writes := Token(rs[0], i), Writes(cs, n, i);
      && (writes == 0 ==> Resolved(rs[n], token) == if Kept(cs, n, i) then rs[0].slots[i].socket else None)
      && (0 < writes < 0x1000_0000_0000 ==> Resolved(rs[n], token) == None)
      && (writes == 0x1000_0000_0000 ==> Resolved(rs[n], token) == Holds(cs, n, i, rs[0].slots[i].socket))
  {
    SlotIs(rs, cs, i, n);
    hide Resolved, Token, Holds, Writes, Kept, IsRun;
    TokenWraps(rs[0], rs[n], i, Writes(cs, n, i));
    hide Consistent;
    if Writes(cs, n, i) == 0 {
      HoldsStart(cs, n, i, rs[0].slots[i].socket);
    }
  }

  // ---------- The registry in place ----------

  /** `realloc` to a larger size, which says nothing about the new cells, and the loop that fills them. */
  method Reallocated(held: array<Slot>, cap: nat) returns (copy: array<Slot>)
    requires held.Length < cap
    ensures fresh(copy) && copy[..] == held[..] + seq(cap - held.Length, _ => Slot(None, 0))
  {
    copy := new Slot[cap](i reads held => if 0 <= i < held.Length then held[i] else Slot(Some(0), 1));
    for i := held.Length to cap
      invariant copy[..held.Length] == held[..]
      invariant forall k :: held.Length <= k < i ==> copy[k] == Slot(None, 0)
    {
      copy[i] := Slot(None, 0);
    }
  }

  class Table {
    var slots: array<Slot>
    var hint: nat
    ghost var serials: seq<nat>

    /** `reg_init`, with or without memory for the first slots. */
    constructor (memory: bool)
      ensures Valid() && fresh(slots)
      ensures forall i :: 0 <= i < slots.Length ==> slots[i].socket == None
    {
      var cap := if memory then INITIAL_CAP else 0;
      slots := new Slot[cap](_ => Slot(None, 0));
      hint := 0;
      serials := seq(cap, _ => 0);
    }

    ghost function Value(): Registry
      reads this, slots
    {
      Registry(slots[..], serials)
    }

    /** Every slot below the hint is in use. */
    ghost predicate Valid()
      reads this, slots
    {
      Consistent(Value()) && hint <= slots.Length && Full(slots[..], 0, hint)
    }

    /** `reg_grow_locked`; `memory` says whether the system has the memory. */
    method Grow(need: nat, memory: bool) returns (ok: bool)
      requires Valid()
      modifies this
      ensures Valid() && hint == old(hint)
      ensures ok <==> need < MAX_FDS && old(slots.Length) < MAX_FDS && memory
      ensures !ok ==> slots == old(slots) && Value() == old(Value())
      ensures ok ==> fresh(slots) && old(slots.Length) < slots.Length && (old(slots.Length) <= need ==> need < slots.Length)
      ensures ok ==> Value() == Extended(old(Value()), slots.Length)
    {
      var cap := Grown(slots.Length, need);
      if cap.None? || !memory {
        return false;
      }
      var copy := Reallocated(slots, cap.value);
      serials := serials + seq(cap.value - slots.Length, _ => 0);
      slots := copy;
      ok := true;
    }

    method Use(i: nat, s: Option<Socket>)
      requires Consistent(Value()) && i < slots.Length
      modifies this`serials, slots
      ensures Consistent(Value()) && Value() == Put(old(Value()), i, s)
    {
      PutConsistent(Value(), i, s);
      ghost var after := Put(Value(), i, s);
      slots[i] := Slot(s, (slots[i].gen + 1) % GENS);
      serials := serials[i := serials[i] + 1];
      assert Value() == after;
    }

    /**
     `hev_sys_socket_to_fd`: the lowest free descriptor, with slots added when
     all are in use; it fails exactly when the socket is not one, or all slots
     are in use and there can be no more.
     */
    method Allocate(s: Option<Socket>, memory: bool) returns (fd: int)
      requires Valid()
      modifies this, slots
      ensures Valid()
      ensures fd >= 0 ==> Full(old(slots[..]), 0, if fd - FD_BASE <= old(slots.Length) then fd - FD_BASE else old(slots.Length))
      ensures fd >= 0 ==> FD_BASE <= fd <= FD_BASE + old(slots.Length) && fd - FD_BASE < slots.Length
      ensures fd >= 0 && fd < FD_BASE + old(slots.Length) ==>
                old(slots[fd - FD_BASE].socket) == None && Value() == Put(old(Value()), fd - FD_BASE, s)
      ensures fd == FD_BASE + old(slots.Length) ==>
                old(slots.Length) < slots.Length && Value() == Put(Extended(old(Value()), slots.Length), fd - FD_BASE, s)
      ensures fd < 0 <==> s.None? || (old(Full(slots[..], 0, slots.Length)) && (old(slots.Length) == MAX_FDS || !memory))
      ensures fd < 0 ==> fd == -1 && Value() == old(Value())
    {
      if s.None? {
        return -1;
      }
      for i := hint to slots.Length
        invariant Valid() && Value() == old(Value()) && slots == old(slots)
        invariant Full(slots[..], 0, i)
      {
        if slots[i].socket == None {
          Use(i, s);
          hint := i + 1;
          return FD_BASE + i;
        }
      }
      hint := slots.Length;
      var cap := slots.Length;
      var ok := Grow(cap, memory);
      if ok {
        Use(cap, s);
        hint := cap + 1;
        return FD_BASE + cap;
      }
      return -1;
    }

    /** `hev_sys_fd_close_socket` */
    method CloseFd(fd: int) returns (s: Option<Socket>)
      requires Valid()
      modifies this`hint, slots
      ensures Valid()
      ensures 0 <= IndexOf(fd) < slots.Length ==> s == old(slots[IndexOf(fd)].socket) && Value() == Closed(old(Value()), IndexOf(fd))
      ensures !(0 <= IndexOf(fd) < slots.Length) ==> s == None && Value() == old(Value())
    {
      var i := IndexOf(fd);
      if i < 0 {
        return None;
      }
      s := None;
      if i < slots.Length {
        s := slots[i].socket;
        ghost var after := Closed(Value(), i);
        slots[i] := slots[i].(socket := None);
        assert Value() == after;
        if i < hint {
          hint := i;
        }
      }
    }

    /**
     `hev_sys_fd_replace`; the slot may be out of use, or beyond those there
     are. It stores what it is given and leaves the hint alone, so that every
     slot below the hint stays in use exactly if it is not given an invalid
     socket for a slot below the hint.
     */
    method Replace(fd: int, s: Option<Socket>, memory: bool) returns (ok: bool, before: Option<Socket>)
      requires Valid()
      modifies this, slots
      ensures Consistent(Value()) && hint == old(hint) && hint <= slots.Length
      ensures Valid() <==> !(ok && s.None? && IndexOf(fd) < hint)
      ensures !ok ==> Value() == old(Value()) && (IndexOf(fd) < 0 || (IndexOf(fd) >= slots.Length && !memory))
      ensures ok ==> 0 <= IndexOf(fd) < slots.Length && old(slots.Length) <= slots.Length
      ensures ok ==> before == (if IndexOf(fd) < old(slots.Length) then old(slots[..])[IndexOf(fd)].socket else None)
      ensures ok ==> Value() == Put(Extended(old(Value()), slots.Length), IndexOf(fd), s)
    {
      var i := IndexOf(fd);
      if i < 0 {
        return false, None;
      }
      if i >= slots.Length {
        var grown := Grow(i, memory);
        if !grown {
          return false, None;
        }
      } else {
        assert Extended(Value(), slots.Length) == Value();
      }
      before := slots[i].socket;
      Use(i, s);
      ok := true;
      assert i < hint && s.None? ==> slots[..][i].socket.None?;
    }

    /** `hev_sys_fd_to_socket` */
    method ToSocket(fd: int) returns (s: Option<Socket>)
      requires Valid()
      ensures s == if 0x4000_0000 <= fd < 0x4000_0000 + slots.Length then slots[fd - 0x4000_0000].socket else None
    {
      var i := IndexOf(fd);
      if i < 0 {
        return None;
      }
      s := None;
      if i < slots.Length {
        s := slots[i].socket;
      }
    }

    /** `hev_sys_fd_to_token` */
    method ToToken(fd: int) returns (token: Option<nat>)
      requires Valid()
      ensures token.Some? <==> 0 <= IndexOf(fd) < slots.Length && slots[IndexOf(fd)].socket.Some?
      ensures token.Some? ==> token.value == Token(Value(), IndexOf(fd))
    {
      var i := IndexOf(fd);
      if i < 0 || i >= slots.Length || slots[i].socket == None {
        return None;
      }
      return Some(slots[i].gen * MAX_FDS + i);
    }

    /** `hev_sys_token_to_socket` */
    method FromToken(token: nat) returns (s: Option<Socket>)
      requires Valid()
      ensures s == Resolved(Value(), token)
    {
      var i := token % MAX_FDS;
      if i < slots.Length && slots[i].gen == token / MAX_FDS {
        return slots[i].socket;
      }
      return None;
    }
  }
}
