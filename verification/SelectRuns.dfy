/**
 When a selection over channels ends and what it returns, and the order in
 which channels are offered, over whole runs of `ChannelSelect`.
 */
module SelectRuns {
  import opened ChannelSelect
  import opened Common
  import opened Links
  import opened RbShape
  import opened Recency

  // ---------- Selections ----------

  /** What a selection that ends here returns: the first channel of its list, if there is one. */
  ghost function Answer(s: State, forWrite: bool): Option<Id> {
    if ListFor(s, forWrite) == [] then None else Some(ListFor(s, forWrite)[0])
  }

  /**
   A selection ends in its first step exactly if the selector has no channels,
   a channel is listed, or its time is 0; else the task sleeps, for a limited
   time unless that is negative.
   */
  lemma SelectExactly(s: State, forWrite: bool, timeout: int)
    requires Sound(s) && Enabled(s, Select(forWrite, timeout))
    ensures
      var s' := Next(s, Select(forWrite, timeout));
      if s.chans == map[] || ListFor(s, forWrite) != [] || timeout == 0 then s' == s
      else s' == s.(pc := Selecting(forWrite, timeout >= 0), runnable := false)
  {
  }

  /** A task that wakes up in a selection ends it exactly if a channel is listed or, with a time limit, the time is up. */
  lemma SelectEndsExactly(s: State, left: nat)
    requires Sound(s) && Enabled(s, Resume(left)) && s.pc.Selecting?
    ensures
      var s' := Next(s, Resume(left));
      if ListFor(s, s.pc.forWrite) != [] || (s.pc.timed && left == 0) then s' == s.(pc := Outside)
      else s' == s.(runnable := false)
  {
  }

  /** What it returns can be used: a channel to read holds a message, and one to write has room at its peer. */
  lemma AnswerUsable(s: State, forWrite: bool)
    requires Sound(s)
    ensures
      var c := Answer(s, forWrite);
      && (c.Some? && !forWrite ==> c.value in s.chans && s.chans[c.value].use > 0)
      && (c.Some? && forWrite ==> c.value in s.chans && s.chans[c.value].peerUse < s.chans[c.value].max)
      && (c.None? && !forWrite ==> forall d :: d in s.chans ==> s.chans[d].use == 0)
  {
    if Answer(s, forWrite).Some? {
      assert ListFor(s, forWrite)[0] in ListFor(s, forWrite);
    }
  }

  /** A channel that is added is offered for reading exactly if it holds a message, and for writing exactly if it is writable. */
  lemma AddExactly(s: State, c: Id, chan: Chan)
    requires Sound(s) && Enabled(s, Add(c, chan))
    ensures
      var s' := Next(s, Add(c, chan));
      && c in s'.chans && s'.chans[c] == chan.(armed := true)
      && (c in s'.readList <==> chan.use > 0) && (c in s'.writeList <==> Writable(s', c))
      && (forall d :: d in s.chans ==> d in s'.chans && s'.chans[d] == s.chans[d])
      && (forall d :: d != c ==> (d in s'.readList <==> d in s.readList) && (d in s'.writeList <==> d in s.writeList))
  {
    ListedMembers(s.readList, c);
    ListedMembers(s.writeList, c);
  }

  /** A channel that is deleted is in neither list, and the others are where they were. */
  lemma DelExactly(s: State, c: Id)
    requires Sound(s) && Enabled(s, Del(c))
    ensures
      var s' := Next(s, Del(c));
      && s'.chans == s.chans - {c} && c !in s'.readList && c !in s'.writeList
      && (forall d :: d != c ==> (d in s'.readList <==> d in s.readList) && (d in s'.writeList <==> d in s.writeList))
  {
    WithoutMembers(s.readList, c);
    WithoutMembers(s.writeList, c);
  }

  // ---------- The rings ----------

  /** The task takes a message from channel `c` in this step, or puts one into the ring of its peer. */
  ghost predicate Takes(s: State, a: Action, c: Id) {
    (a == Read(c) || (a.Resume? && s.pc == ReadWait(c))) && c in s.chans && s.chans[c].use > 0
  }

  ghost predicate Puts(s: State, a: Action, c: Id) {
    && c in s.chans && s.chans[c].peerUse < s.chans[c].max
    && ((a == Write(c) && s.chans[c].peer) || (a.Resume? && s.pc == RoomWait(c)))
  }

  /** From `s` to `s'` the two rings of channel `c` change by so much, and nothing else of it but its task pointer. */
  ghost predicate RingsBy(s: State, s': State, c: Id, use: int, peerUse: int) {
    && c in s.chans && c in s'.chans && s'.chans[c].max == s.chans[c].max && s'.chans[c].peer == s.chans[c].peer
    && s'.chans[c].use == s.chans[c].use + use && s'.chans[c].peerUse == s.chans[c].peerUse + peerUse
  }

  lemma ReadRings(s: State, d: Id, c: Id)
    requires d in s.chans && c in s.chans
    ensures RingsBy(s, ReadFrom(s, d), c, if c == d && s.chans[c].use > 0 then -1 else 0, 0)
  {
  }

  lemma WriteRings(s: State, d: Id, c: Id)
    requires d in s.chans && c in s.chans
    ensures RingsBy(s, WriteTo(s, d), c, 0, if c == d && s.chans[c].peerUse < s.chans[c].max then 1 else 0)
    ensures RingsBy(s, SyncOn(s, d), c, 0, 0)
  {
  }

  lemma ClearedRings(s: State, d: Id, c: Id)
    requires d in s.chans && c in s.chans
    ensures RingsBy(s, Cleared(s, d), c, 0, 0) && Cleared(s, d).chans.Keys == s.chans.Keys
  {
  }

  lemma ResumeRings(s: State, left: nat, c: Id)
    requires Enabled(s, Resume(left)) && c in s.chans
    ensures RingsBy(s, Next(s, Resume(left)), c, if Takes(s, Resume(left), c) then -1 else 0, if Puts(s, Resume(left), c) then 1 else 0)
  {
    hide ReadFrom, WriteTo, SyncOn, Cleared;
    if !s.pc.Selecting? {
      var d := s.pc.c;
      ClearedRings(s, d, c);
      ClearedRings(s, d, d);
      ReadRings(Cleared(s, d), d, c);
      WriteRings(Cleared(s, d), d, c);
    }
  }

  /** The rings are filled and emptied by one message at a time, by exactly these steps. */
  lemma RingsStep(s: State, a: Action, c: Id)
    requires Sound(s) && Enabled(s, a) && c in s.chans && a != Del(c)
    ensures
      var s' := Next(s, a);
      && c in s'.chans && s'.chans[c].max == s.chans[c].max
      && s'.chans[c].use == s.chans[c].use + (if a == PeerWrite(c) then 1 else 0) - (if Takes(s, a, c) then 1 else 0)
      && s'.chans[c].peerUse == s.chans[c].peerUse + (if Puts(s, a, c) then 1 else 0) - (if a == PeerRead(c) then 1 else 0)
      && (s'.chans[c].peer <==> s.chans[c].peer && a != PeerDestroy(c))
  {
    hide Rings, ReadExact, WriteRoom, Without, Listed, ReadFrom, WriteTo, SyncOn, Cleared;
    match a
    case Resume(left) =>
      ResumeRings(s, left, c);
      hide Next;
    case Read(d) => ReadRings(s, d, c);
    case Write(d) => WriteRings(s, d, c);
    case _ =>
  }

  // ---------- The order of the lists ----------

  /** The step with which a channel last came into a list. */
  ghost function ListedAt(ss: seq<State>, n: nat, forWrite: bool, c: Id): nat
    requires n < |ss|
  {
    if n == 0 then 0
    else if c in ListFor(ss[n], forWrite) && c !in ListFor(ss[n - 1], forWrite) then n
    else ListedAt(ss, n - 1, forWrite, c)
  }

  ghost function Listings(ss: seq<State>, n: nat, forWrite: bool): map<Id, nat>
    requires n < |ss|
  {
    map c | c in ListFor(ss[n], forWrite) :: ListedAt(ss, n, forWrite, c)
  }

  /** How a list can change: a channel comes in at its end, or one leaves. */
  ghost predicate ListMoves(l: seq<Id>, l': seq<Id>) {
    || l' == l
    || (l' != [] && l'[|l'| - 1] !in l && l' == l + [l'[|l'| - 1]])
    || (exists c :: l' == Without(l, c))
  }

  lemma ListStep(s: State, a: Action, forWrite: bool)
    requires Sound(s) && Enabled(s, a)
    ensures ListMoves(ListFor(s, forWrite), ListFor(Next(s, a), forWrite))
  {
    var l, l' := ListFor(s, forWrite), ListFor(Next(s, a), forWrite);
    if a.Resume? && !s.pc.Selecting? {
      ResumeList(s, a, forWrite);
    }
    hide Rings, ReadExact, WriteRoom, Without;
    if a.Del? || a.Read? || a.Write? {
      assert l' == l || l' == Without(l, a.c);
    }
  }

  lemma ResumeList(s: State, a: Action, forWrite: bool)
    requires Sound(s) && Enabled(s, a) && a.Resume? && !s.pc.Selecting?
    ensures
      var l, l' := ListFor(s, forWrite), ListFor(Next(s, a), forWrite);
      l' == l || l' == Without(l, s.pc.c)
  {
    hide Rings, ReadExact, WriteRoom, Without;
  }

  /** Both lists offer their channels in the order in which they came in: the one listed longest is returned first. */
  lemma {:induction false} FirstListedFirst(ss: seq<State>, acts: seq<Action>, n: nat, forWrite: bool)
    requires IsRun(ss, acts) && Initial(ss[0]) && n < |ss|
    ensures OldestFirst(ListFor(ss[n], forWrite), Listings(ss, n, forWrite), n + 1)
  {
    hide Next, Enabled, Sound;
    if n > 0 {
      FirstListedFirst(ss, acts, n - 1, forWrite);
      ListsExact(ss, acts, n - 1);
      assert ss[n - 1 + 1] == Next(ss[n - 1], acts[n - 1]);
      ListStep(ss[n - 1], acts[n - 1], forWrite);
      ListShift(ss, n, forWrite);
    }
  }

  /** A channel that stays in a list keeps its stamp, and one that comes in gets the step. */
  lemma ListingsStep(ss: seq<State>, n: nat, forWrite: bool, c: Id)
    requires 0 < n < |ss| && c in ListFor(ss[n], forWrite)
    ensures c in Listings(ss, n, forWrite)
    ensures Listings(ss, n, forWrite)[c] == if c in ListFor(ss[n - 1], forWrite) then Listings(ss, n - 1, forWrite)[c] else n
  {
  }

  lemma ListShift(ss: seq<State>, n: nat, forWrite: bool)
    requires 0 < n < |ss| && ListMoves(ListFor(ss[n - 1], forWrite), ListFor(ss[n], forWrite))
    requires OldestFirst(ListFor(ss[n - 1], forWrite), Listings(ss, n - 1, forWrite), n)
    ensures OldestFirst(ListFor(ss[n], forWrite), Listings(ss, n, forWrite), n + 1)
  {
    var l, l', f, g := ListFor(ss[n - 1], forWrite), ListFor(ss[n], forWrite), Listings(ss, n - 1, forWrite), Listings(ss, n, forWrite);
    forall c | c in l'
      ensures c in g && g[c] == if c in l then f[c] else n
    {
      ListingsStep(ss, n, forWrite, c);
    }
    ListOrder(l, l', f, g, n);
  }

  lemma ListOrder(l: seq<Id>, l': seq<Id>, f: map<Id, nat>, g: map<Id, nat>, n: nat)
    requires ListMoves(l, l') && OldestFirst(l, f, n) && forall c :: c in l' ==> c in g && g[c] == if c in l && c in f then f[c] else n
    ensures OldestFirst(l', g, n + 1)
  {
    if l' == l {
      ShiftedOldest(l, f, g, n, n + 1);
    } else if l' != [] && l'[|l'| - 1] !in l && l' == l + [l'[|l'| - 1]] {
      assert forall c :: c in l ==> c in l';
      ShiftedOldest(l, f, g, n, n);
      PutBehind(l, l'[|l'| - 1], g, n);
    } else {
      var c :| l' == Without(l, c);
      WithoutOldest(l, c, f, n);
      ShiftedOldest(l', f, g, n, n + 1);
    }
  }
}
