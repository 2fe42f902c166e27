/**
 A task waiting on many channels at once (`hev-task-channel-select.c` and the
 select hooks of `hev-task-channel.c`): one selector, its channels, and peers
 that write, read and go away whenever they can.
 */
module ChannelSelect {
  import opened Links
  import opened RbShape

  type Id = nat

  /**
   A channel of the selector: its ring size, the messages in its own ring and
   in that of its peer, whether the peer is there, and whether its task
   pointer is set, so that peers wake the task (`armed`).
   */
  datatype Chan = Chan(max: nat, use: nat, peerUse: nat, peer: bool, armed: bool)

  datatype Pc = Outside | Selecting(forWrite: bool, timed: bool) | ReadWait(c: Id) | RoomWait(c: Id) | SyncWait(c: Id)

  datatype State = State(chans: map<Id, Chan>, readList: seq<Id>, writeList: seq<Id>, pc: Pc, runnable: bool)

  datatype Action =
    | Spurious
    | PeerWrite(c: Id)
    | PeerRead(c: Id)
    | PeerDestroy(c: Id)
    | Add(c: Id, chan: Chan)
    | Del(c: Id)
    | Select(forWrite: bool, timeout: int)
    | Read(c: Id)
    | Write(c: Id)
    | Resume(left: nat)

  /** `hev_task_channel_select_add_read` and `_add_write`: not twice. */
  ghost function Listed(list: seq<Id>, c: Id): seq<Id> {
    if c in list then list else list + [c]
  }

  ghost function ReadListed(s: State, c: Id): State { s.(readList := Listed(s.readList, c)) }

  ghost function WriteListed(s: State, c: Id): State { s.(writeList := Listed(s.writeList, c)) }

  ghost function Changed(s: State, c: Id, chan: Chan): State { s.(chans := s.chans[c := chan]) }

  ghost function Woken(s: State, armed: bool): State { s.(runnable := s.runnable || armed) }

  // ---------- What the peers do ----------

  ghost function PeerWrites(s: State, c: Id): State
    requires c in s.chans
  {
    var k := s.chans[c];
    var u := if k.use == 0 then Woken(ReadListed(s, c), k.armed) else s;
    Changed(u, c, k.(use := k.use + 1))
  }

  ghost function PeerReads(s: State, c: Id): State
    requires c in s.chans && s.chans[c].peerUse > 0
  {
    var k := s.chans[c];
    var u := if k.peerUse == k.max then Woken(WriteListed(s, c), k.armed) else s;
    Changed(u, c, k.(peerUse := k.peerUse - 1))
  }

  ghost function PeerDestroys(s: State, c: Id): State
    requires c in s.chans
  {
    Woken(Changed(s, c, s.chans[c].(peer := false)), s.chans[c].armed)
  }

  // ---------- What the task does ----------

  /** `hev_task_channel_select_add` */
  ghost function Added(s: State, c: Id, chan: Chan): State {
    var u := Changed(s, c, chan.(armed := true));
    var v := if chan.use != 0 then ReadListed(u, c) else u;
    if chan.peer && chan.peerUse < chan.max - 1 then WriteListed(v, c) else v
  }

  /** `hev_task_channel_select_del` */
  ghost function Deleted(s: State, c: Id): State {
    s.(readList := Without(s.readList, c), writeList := Without(s.writeList, c), chans := s.chans - {c})
  }

  ghost function Blocked(s: State, c: Id, pc: Pc): State
    requires c in s.chans
  {
    Changed(s, c, s.chans[c].(armed := true)).(pc := pc, runnable := false)
  }

  /** Back from a yield inside a call on `c`: its task pointer is cleared. */
  ghost function Cleared(s: State, c: Id): State
    requires c in s.chans
  {
    Changed(s, c, s.chans[c].(armed := false)).(pc := Outside)
  }

  /** `hev_task_channel_read` from the test of its loop on. */
  ghost function ReadFrom(s: State, c: Id): State
    requires c in s.chans
  {
    var k := s.chans[c];
    if k.use != 0 then
      var u := Changed(s, c, k.(use := k.use - 1));
      if k.use == 1 then u.(readList := Without(s.readList, c)) else u
    else if !k.peer then s
    else Blocked(s, c, ReadWait(c))
  }

  /** `hev_task_channel_write` from the test of its last loop on. */
  ghost function SyncOn(s: State, c: Id): State
    requires c in s.chans
  {
    var k := s.chans[c];
    if k.peerUse < k.max || !k.peer then s else Blocked(s, c, SyncWait(c))
  }

  /** The message goes into the ring of the peer. */
  ghost function Wrote(s: State, c: Id): State
    requires c in s.chans
  {
    var k := s.chans[c];
    var u := Changed(s, c, k.(peerUse := k.peerUse + 1));
    if k.peerUse + 1 < k.max - 1 then u else u.(writeList := Without(s.writeList, c))
  }

  /** `hev_task_channel_write` from the test of its first loop on. */
  ghost function WriteTo(s: State, c: Id): State
    requires c in s.chans
  {
    var k := s.chans[c];
    if k.peerUse < k.max then SyncOn(Wrote(s, c), c)
    else if !k.peer then s
    else Blocked(s, c, RoomWait(c))
  }

  /** `hev_task_channel_select` from the test of its loop on. */
  ghost function SelectOn(s: State, forWrite: bool, timed: bool, left: nat): State {
    var list := if forWrite then s.writeList else s.readList;
    if list != [] || (timed && left == 0) then s.(pc := Outside)
    else s.(pc := Selecting(forWrite, timed), runnable := false)
  }

  ghost function Selected(s: State, forWrite: bool, timeout: int): State {
    if s.chans == map[] then s
    else SelectOn(s, forWrite, timeout >= 0, if timeout < 0 then 1 else timeout)
  }

  ghost predicate Enabled(s: State, a: Action) {
    match a
    case Spurious => true
    case PeerWrite(c) => c in s.chans && s.chans[c].peer && s.chans[c].use < s.chans[c].max
    case PeerRead(c) => c in s.chans && s.chans[c].peer && s.chans[c].peerUse > 0
    case PeerDestroy(c) => c in s.chans && s.chans[c].peer
    case Resume(_) => s.runnable && !s.pc.Outside? && (s.pc.Selecting? || s.pc.c in s.chans)
    case Add(c, chan) => s.runnable && s.pc.Outside? && c !in s.chans && Fresh(chan)
    case Select(_, _) => s.runnable && s.pc.Outside?
    case Del(c) => s.runnable && s.pc.Outside? && c in s.chans
    case Read(c) => s.runnable && s.pc.Outside? && c in s.chans
    case Write(c) => s.runnable && s.pc.Outside? && c in s.chans
  }

  /** A channel no call is under way on: rings within bounds, and room in that of a live peer. */
  ghost predicate Fresh(chan: Chan) {
    chan.max >= 1 && chan.use <= chan.max && chan.peerUse <= chan.max && (chan.peer ==> chan.peerUse < chan.max)
  }

  ghost function Next(s: State, a: Action): State
    requires Enabled(s, a)
  {
    match a
    case Spurious => s.(runnable := true)
    case PeerWrite(c) => PeerWrites(s, c)
    case PeerRead(c) => PeerReads(s, c)
    case PeerDestroy(c) => PeerDestroys(s, c)
    case Add(c, chan) => Added(s, c, chan)
    case Del(c) => Deleted(s, c)
    case Select(forWrite, timeout) => Selected(s, forWrite, timeout)
    case Read(c) => ReadFrom(s, c)
    case Write(c) => if s.chans[c].peer then WriteTo(s, c) else s
    case Resume(left) =>
      match s.pc
      case Selecting(forWrite, timed) => SelectOn(s, forWrite, timed, left)
      case ReadWait(c) => ReadFrom(Cleared(s, c), c)
      case RoomWait(c) => WriteTo(Cleared(s, c), c)
      case SyncWait(c) => SyncOn(Cleared(s, c), c)
  }

  // ---------- What holds in every state ----------

  ghost predicate Rings(chans: map<Id, Chan>) {
    forall c :: c in chans ==> chans[c].max >= 1 && chans[c].use <= chans[c].max && chans[c].peerUse <= chans[c].max
  }

  /** A channel is in the read list exactly when its ring is not empty. */
  ghost predicate ReadExact(chans: map<Id, Chan>, list: seq<Id>) {
    && NoRepeat(list)
    && (forall c :: c in list ==> c in chans && chans[c].use > 0)
    && (forall c :: c in chans && chans[c].use > 0 ==> c in list)
  }

  /** A channel in the write list has room at its peer. */
  ghost predicate WriteRoom(chans: map<Id, Chan>, list: seq<Id>) {
    && NoRepeat(list)
    && (forall c :: c in list ==> c in chans && chans[c].peerUse < chans[c].max)
  }

  ghost predicate Sound(s: State) {
    && Rings(s.chans) && ReadExact(s.chans, s.readList) && WriteRoom(s.chans, s.writeList)
    && (s.pc.ReadWait? || s.pc.RoomWait? || s.pc.SyncWait? ==> s.pc.c in s.chans)
    && (s.pc.Selecting? ==> s.chans != map[])
  }

  lemma ListedMembers(list: seq<Id>, c: Id)
    requires NoRepeat(list)
    ensures NoRepeat(Listed(list, c)) && Listed(list, c) != []
    ensures forall d :: d in Listed(list, c) <==> d == c || d in list
  {
  }

  lemma RingsChanged(chans: map<Id, Chan>, c: Id, k: Chan)
    requires Rings(chans) && k.max >= 1 && k.use <= k.max && k.peerUse <= k.max
    ensures Rings(chans[c := k])
  {
  }

  lemma ReadChanged(chans: map<Id, Chan>, list: seq<Id>, c: Id, k: Chan)
    requires ReadExact(chans, list)
    ensures k.use > 0 ==> ReadExact(chans[c := k], Listed(list, c))
    ensures k.use == 0 ==> ReadExact(chans[c := k], Without(list, c))
    ensures (k.use > 0 <==> c in list) ==> ReadExact(chans[c := k], list)
  {
    ListedMembers(list, c);
    WithoutMembers(list, c);
  }

  lemma WriteChanged(chans: map<Id, Chan>, list: seq<Id>, c: Id, k: Chan)
    requires WriteRoom(chans, list)
    ensures k.peerUse < k.max ==> WriteRoom(chans[c := k], Listed(list, c))
    ensures WriteRoom(chans[c := k], Without(list, c))
    ensures (c in list ==> k.peerUse < k.max) ==> WriteRoom(chans[c := k], list)
  {
    ListedMembers(list, c);
    WithoutMembers(list, c);
  }

  lemma Dropped(chans: map<Id, Chan>, c: Id, readList: seq<Id>, writeList: seq<Id>)
    requires Rings(chans) && ReadExact(chans, readList) && WriteRoom(chans, writeList)
    ensures Rings(chans - {c}) && ReadExact(chans - {c}, Without(readList, c)) && WriteRoom(chans - {c}, Without(writeList, c))
  {
    WithoutMembers(readList, c);
    WithoutMembers(writeList, c);
  }

  lemma PeerSound(s: State, a: Action)
    requires Sound(s) && Enabled(s, a) && (a.PeerWrite? || a.PeerRead? || a.PeerDestroy?)
    ensures Sound(Next(s, a))
  {
    var k := Next(s, a).chans[a.c];
    RingsChanged(s.chans, a.c, k);
    ReadChanged(s.chans, s.readList, a.c, k);
    WriteChanged(s.chans, s.writeList, a.c, k);
    hide Rings, ReadExact, WriteRoom;
  }

  lemma BlockedSound(s: State, c: Id, armed: bool)
    requires Sound(s) && c in s.chans
    ensures
      var chans := s.chans[c := s.chans[c].(armed := armed)];
      Rings(chans) && ReadExact(chans, s.readList) && WriteRoom(chans, s.writeList)
  {
    var k := s.chans[c].(armed := armed);
    RingsChanged(s.chans, c, k);
    ReadChanged(s.chans, s.readList, c, k);
    WriteChanged(s.chans, s.writeList, c, k);
  }

  lemma ReadSound(s: State, c: Id)
    requires Sound(s) && c in s.chans && s.pc.Outside?
    ensures Sound(ReadFrom(s, c))
  {
    BlockedSound(s, c, true);
    var k := s.chans[c];
    if k.use > 0 {
      var k' := k.(use := k.use - 1);
      RingsChanged(s.chans, c, k');
      ReadChanged(s.chans, s.readList, c, k');
      WriteChanged(s.chans, s.writeList, c, k');
      hide Rings, ReadExact, WriteRoom;
    }
  }

  lemma SyncSound(s: State, c: Id)
    requires Sound(s) && c in s.chans && s.pc.Outside?
    ensures Sound(SyncOn(s, c))
  {
    BlockedSound(s, c, true);
  }

  lemma WroteSound(s: State, c: Id)
    requires Sound(s) && c in s.chans && s.pc.Outside? && s.chans[c].peerUse < s.chans[c].max
    ensures Sound(Wrote(s, c))
  {
    var k := s.chans[c].(peerUse := s.chans[c].peerUse + 1);
    RingsChanged(s.chans, c, k);
    ReadChanged(s.chans, s.readList, c, k);
    WriteChanged(s.chans, s.writeList, c, k);
    hide Rings, ReadExact, WriteRoom, Without;
    var u := Changed(s, c, k);
    if k.peerUse < k.max - 1 {
      assert Wrote(s, c) == u;
    } else {
      assert Wrote(s, c) == u.(writeList := Without(s.writeList, c));
    }
  }

  lemma WriteSound(s: State, c: Id)
    requires Sound(s) && c in s.chans && s.pc.Outside?
    ensures Sound(WriteTo(s, c))
  {
    BlockedSound(s, c, true);
    if s.chans[c].peerUse < s.chans[c].max {
      WroteSound(s, c);
      SyncSound(Wrote(s, c), c);
    }
    hide Rings, ReadExact, WriteRoom, Wrote, SyncOn;
  }

  lemma ResumeSound(s: State, left: nat)
    requires Sound(s) && Enabled(s, Resume(left))
    ensures Sound(Next(s, Resume(left)))
  {
    if !s.pc.Selecting? {
      BlockedSound(s, s.pc.c, false);
    }
    hide ReadFrom, WriteTo, SyncOn;
    match s.pc
    case Selecting(forWrite, timed) =>
    case ReadWait(c) => ReadSound(Cleared(s, c), c);
    case RoomWait(c) => WriteSound(Cleared(s, c), c);
    case SyncWait(c) => SyncSound(Cleared(s, c), c);
  }

  lemma AddSound(s: State, c: Id, chan: Chan)
    requires Sound(s) && Enabled(s, Add(c, chan))
    ensures Sound(Added(s, c, chan))
  {
    var k := chan.(armed := true);
    RingsChanged(s.chans, c, k);
    ReadChanged(s.chans, s.readList, c, k);
    WriteChanged(s.chans, s.writeList, c, k);
  }

  lemma StepSound(s: State, a: Action)
    requires Sound(s) && Enabled(s, a)
    ensures Sound(Next(s, a))
  {
    hide PeerWrites, PeerReads, PeerDestroys, Added, ReadFrom, WriteTo, ReadExact, WriteRoom, Rings;
    match a
    case Spurious =>
    case PeerWrite(c) => PeerSound(s, a);
    case PeerRead(c) => PeerSound(s, a);
    case PeerDestroy(c) => PeerSound(s, a);
    case Add(c, chan) => AddSound(s, c, chan);
    case Del(c) => Dropped(s.chans, c, s.readList, s.writeList);
    case Select(forWrite, timeout) =>
    case Read(c) => ReadSound(s, c);
    case Write(c) => WriteSound(s, c);
    case Resume(left) => ResumeSound(s, left);
  }

  // ---------- A selector that uses what it is given ----------

  ghost function ListFor(s: State, forWrite: bool): seq<Id> {
    if forWrite then s.writeList else s.readList
  }

  /** The task does not sleep in a selection whose list holds a channel. */
  ghost predicate NoLost(s: State) {
    s.pc.Selecting? && ListFor(s, s.pc.forWrite) != [] ==> s.runnable
  }

  /** All channels wake the task; none is full, and those offered for writing stay short of full by one more. */
  ghost predicate Armed(s: State) {
    && (forall c :: c in s.chans ==> s.chans[c].armed && (s.chans[c].peer ==> s.chans[c].peerUse < s.chans[c].max))
    && (forall c :: c in s.writeList ==> c in s.chans && (s.chans[c].peer ==> s.chans[c].peerUse < s.chans[c].max - 1))
    && (s.pc.Outside? || s.pc.Selecting?)
  }

  /** It reads only channels that a selection for reading, and writes only channels that one for writing can return. */
  ghost predicate Disciplined(s: State, a: Action) {
    (a.Read? ==> a.c in s.readList) && (a.Write? ==> a.c in s.writeList)
  }

  lemma PeerArmed(s: State, a: Action)
    requires Sound(s) && Armed(s) && NoLost(s) && Enabled(s, a) && (a.PeerWrite? || a.PeerRead? || a.PeerDestroy?)
    ensures Armed(Next(s, a)) && NoLost(Next(s, a))
  {
  }

  lemma WriteArmed(s: State, c: Id)
    requires Sound(s) && Armed(s) && Enabled(s, Write(c)) && c in s.writeList
    ensures Armed(Next(s, Write(c))) && Next(s, Write(c)).pc.Outside?
  {
    WithoutMembers(s.writeList, c);
  }

  lemma StepArmed(s: State, a: Action)
    requires Sound(s) && Armed(s) && NoLost(s) && Enabled(s, a) && Disciplined(s, a)
    ensures Armed(Next(s, a)) && NoLost(Next(s, a))
  {
    hide PeerWrites, PeerReads, PeerDestroys, Added, Deleted, ReadFrom, WriteTo, Without;
    match a
    case Spurious =>
    case PeerWrite(c) => PeerArmed(s, a);
    case PeerRead(c) => PeerArmed(s, a);
    case PeerDestroy(c) => PeerArmed(s, a);
    case Add(c, chan) => AddArmed(s, c, chan);
    case Del(c) => DelArmed(s, c);
    case Select(forWrite, timeout) =>
    case Read(c) => ReadArmed(s, c);
    case Write(c) => WriteArmed(s, c);
    case Resume(left) =>
  }

  lemma AddArmed(s: State, c: Id, chan: Chan)
    requires Sound(s) && Armed(s) && Enabled(s, Add(c, chan))
    ensures Armed(Added(s, c, chan)) && Added(s, c, chan).pc.Outside?
  {
    ListedMembers(s.writeList, c);
  }

  lemma DelArmed(s: State, c: Id)
    requires Sound(s) && Armed(s) && Enabled(s, Del(c))
    ensures Armed(Deleted(s, c)) && Deleted(s, c).pc.Outside?
  {
    WithoutMembers(s.writeList, c);
  }

  lemma ReadArmed(s: State, c: Id)
    requires Sound(s) && Armed(s) && Enabled(s, Read(c)) && c in s.readList
    ensures Armed(ReadFrom(s, c)) && ReadFrom(s, c).pc.Outside?
  {
  }

  // ---------- Whole runs ----------

  ghost predicate IsRun(ss: seq<State>, acts: seq<Action>) {
    && |ss| == |acts| + 1
    && forall i :: 0 <= i < |acts| ==> Enabled(ss[i], acts[i]) && ss[i + 1] == Next(ss[i], acts[i])
  }

  ghost predicate Initial(s: State) {
    s.chans == map[] && s.readList == [] && s.writeList == [] && s.pc.Outside?
  }

  /** Over every run, whatever the task does: the read list is exact, and a channel in the write list has room. */
  lemma {:induction false} ListsExact(ss: seq<State>, acts: seq<Action>, n: nat)
    requires IsRun(ss, acts) && Initial(ss[0]) && n < |ss|
    ensures Sound(ss[n])
  {
    hide Next, Enabled;
    if n > 0 {
      ListsExact(ss, acts, n - 1);
      assert ss[n - 1 + 1] == Next(ss[n - 1], acts[n - 1]);
      StepSound(ss[n - 1], acts[n - 1]);
    }
  }

  /**
   Over every run of a task that reads and writes only channels its
   selections offer, it never sleeps in a selection with a channel in its
   list, and no read or write of it ever blocks. For reading that is all one
   wants, as the read list is exact; what is in the write list is below.
   */
  lemma {:induction false} NeverSleepsOver(ss: seq<State>, acts: seq<Action>, n: nat)
    requires IsRun(ss, acts) && Initial(ss[0]) && n < |ss|
    requires forall i :: 0 <= i < n ==> Disciplined(ss[i], acts[i])
    ensures NoLost(ss[n]) && Armed(ss[n])
  {
    hide Next, Enabled, Sound;
    if n > 0 {
      NeverSleepsOver(ss, acts, n - 1);
      ListsExact(ss, acts, n - 1);
      assert ss[n - 1 + 1] == Next(ss[n - 1], acts[n - 1]);
      StepArmed(ss[n - 1], acts[n - 1]);
    }
  }

  // ---------- And one that does not ----------

  /** Steps that can happen while the task sleeps. */
  ghost predicate Quiet(a: Action) {
    a.Spurious? || a.PeerWrite? || a.PeerRead? || a.PeerDestroy?
  }

  ghost predicate CanRun(s: State, acts: seq<Action>)
    decreases |acts|
  {
    acts == [] || (Enabled(s, acts[0]) && Quiet(acts[0]) && CanRun(Next(s, acts[0]), acts[1..]))
  }

  ghost function RunTo(s: State, acts: seq<Action>): State
    requires CanRun(s, acts)
    decreases |acts|
  {
    if acts == [] then s else RunTo(Next(s, acts[0]), acts[1..])
  }

  /** Every channel with a live peer wakes the task. */
  ghost predicate Heard(s: State) {
    forall c :: c in s.chans && s.chans[c].peer ==> s.chans[c].armed
  }

  lemma {:induction false} HeardNoLost(s: State, acts: seq<Action>)
    requires Heard(s) && NoLost(s) && s.pc.Selecting? && !s.pc.forWrite && CanRun(s, acts)
    ensures NoLost(RunTo(s, acts))
    decreases |acts|
  {
    if acts != [] {
      HeardNoLost(Next(s, acts[0]), acts[1..]);
    }
  }

  /** Whatever the peers do to a sleeping task, it does not sleep over a channel it waits for. */
  ghost predicate NeverLost(s: State) {
    forall acts | CanRun(s, acts) :: NoLost(RunTo(s, acts))
  }

  lemma UnheardLost(s: State, c: Id)
    requires Sound(s) && s.pc == Selecting(false, false) && !s.runnable && s.readList == []
    requires c in s.chans && s.chans[c].peer && !s.chans[c].armed
    ensures !NeverLost(s)
  {
    var acts := [PeerWrite(c)];
    assert c !in s.readList;
    assert acts[1..] == [] && CanRun(s, acts);
    assert RunTo(s, acts) == PeerWrites(s, c);
    assert c in RunTo(s, acts).readList;
  }

  /**
   A task about to sleep in a selection for reading will not sleep over a
   readable channel, whatever its peers do, exactly if every channel with a
   live peer still has its task pointer set. A read or a write that had to
   wait clears it, and only a new `hev_task_channel_select_add` sets it again.
   */
  lemma SelectSafe(s: State)
    requires Sound(s) && Enabled(s, Select(false, -1)) && s.readList == [] && s.chans != map[]
    ensures NeverLost(Next(s, Select(false, -1))) <==> Heard(s)
  {
    var s1 := Next(s, Select(false, -1));
    if Heard(s) {
      forall acts | CanRun(s1, acts)
        ensures NoLost(RunTo(s1, acts))
      {
        HeardNoLost(s1, acts);
      }
    } else {
      var c :| c in s.chans && s.chans[c].peer && !s.chans[c].armed;
      UnheardLost(s1, c);
    }
  }

  /** What a call may come back to later: a read or write that waits ends with its channel unheard. */
  lemma WaitingUnhears(s: State, left: nat)
    requires Sound(s) && Enabled(s, Resume(left)) && !s.pc.Selecting? && Next(s, Resume(left)).pc.Outside?
    ensures !Next(s, Resume(left)).chans[s.pc.c].armed
  {
  }

  /** A write that fills the ring of its peer waits for it to be read, and that is enough to get there. */
  lemma BlockingWriteUnhears(s: State, c: Id)
    requires Sound(s) && Enabled(s, Write(c)) && s.chans[c].peer && s.chans[c].peerUse == s.chans[c].max - 1
    ensures
      var s1 := Next(s, Write(c));
      && s1.pc == SyncWait(c) && Enabled(s1, PeerRead(c))
      && var s2 := Next(s1, PeerRead(c));
      && Enabled(s2, Resume(0))
      && var s3 := Next(s2, Resume(0));
      && s3.pc.Outside? && s3.runnable && s3.readList == s.readList && s3.chans.Keys == s.chans.Keys && !Heard(s3)
  {
    var s1 := Next(s, Write(c));
    var s2 := Next(s1, PeerRead(c));
    var s3 := Next(s2, Resume(0));
    assert c in s3.chans && s3.chans[c].peer && !s3.chans[c].armed;
  }

  /** `hev_task_channel_is_select_writable`, with a peer to write to. */
  ghost predicate Writable(s: State, c: Id) {
    c in s.chans && s.chans[c].peer && s.chans[c].peerUse < s.chans[c].max - 1
  }

  /** One channel of one buffer, with so many messages at its peer. */
  ghost function Demo(peerUse: nat, writeList: seq<Id>): State {
    State(map[0 := Chan(2, 0, peerUse, true, true)], [], writeList, Outside, true)
  }

  lemma DemoAdd(s: State)
    requires s == State(map[], [], [], Outside, true)
    ensures Enabled(s, Add(0, Chan(2, 0, 0, true, true))) && Next(s, Add(0, Chan(2, 0, 0, true, true))) == Demo(0, [0])
  {
  }

  lemma DemoWrite()
    ensures Enabled(Demo(0, [0]), Write(0)) && Next(Demo(0, [0]), Write(0)) == Demo(1, [])
    ensures Enabled(Demo(1, []), PeerRead(0)) && Next(Demo(1, []), PeerRead(0)) == Demo(0, [])
  {
    assert Without([0], 0) == [];
  }

  /**
   The write list is not exact: with one buffer, a channel written and read
   empty again is not offered for writing.
   */
  lemma WriteListMisses() returns (ss: seq<State>, acts: seq<Action>, c: Id)
    ensures IsRun(ss, acts) && Initial(ss[0]) && forall i :: 0 <= i < |acts| ==> Disciplined(ss[i], acts[i])
    ensures Writable(ss[|acts|], c) && ss[|acts|].writeList == [] && Enabled(ss[|acts|], Select(true, -1))
  {
    var s := State(map[], [], [], Outside, true);
    DemoAdd(s);
    DemoWrite();
    hide Next;
    c := 0;
    acts := [Add(0, Chan(2, 0, 0, true, true)), Write(0), PeerRead(0)];
    ss := [s, Demo(0, [0]), Demo(1, []), Demo(0, [])];
  }

  /** With nothing offered, a selection for writing sleeps. */
  lemma EmptySleeps(s: State)
    requires Enabled(s, Select(true, -1)) && s.writeList == [] && s.chans != map[]
    ensures Next(s, Select(true, -1)) == s.(pc := Selecting(true, false), runnable := false)
  {
  }

  // ---------- What the write list offers ----------

  /** Whatever the peers do from here on, a channel that is writable is offered for writing. */
  ghost predicate NeverMissed(s: State, c: Id) {
    forall acts | CanRun(s, acts) :: Writable(RunTo(s, acts), c) ==> c in RunTo(s, acts).writeList
  }

  /** The channel is offered, or can be writable again only by leaving the full state, or not at all. */
  ghost predicate Covered(s: State, c: Id) {
    || c in s.writeList || c !in s.chans || !s.chans[c].peer
    || s.chans[c].peerUse == s.chans[c].max || s.chans[c].max == 1
  }

  lemma CoveredStep(s: State, a: Action, c: Id)
    requires Covered(s, c) && Enabled(s, a) && Quiet(a)
    ensures Covered(Next(s, a), c)
  {
  }

  lemma {:induction false} CoveredRun(s: State, acts: seq<Action>, c: Id)
    requires Covered(s, c) && CanRun(s, acts)
    ensures Covered(RunTo(s, acts), c)
    decreases |acts|
  {
    if acts != [] {
      CoveredStep(s, acts[0], c);
      CoveredRun(Next(s, acts[0]), acts[1..], c);
    }
  }

  lemma {:induction false} RingsRun(s: State, acts: seq<Action>)
    requires Sound(s) && CanRun(s, acts)
    ensures Sound(RunTo(s, acts))
    decreases |acts|
  {
    if acts != [] {
      StepSound(s, acts[0]);
      RingsRun(Next(s, acts[0]), acts[1..]);
    }
  }

  lemma UncoveredMissed(s: State, c: Id)
    requires Sound(s) && !Covered(s, c)
    ensures !NeverMissed(s, c)
  {
    if s.chans[c].peerUse < s.chans[c].max - 1 {
      assert CanRun(s, []) && RunTo(s, []) == s;
    } else {
      var acts := [PeerRead(c)];
      assert acts[1..] == [] && CanRun(s, acts);
      assert RunTo(s, acts) == PeerReads(s, c);
    }
  }

  /**
   The write list misses no writable channel, whatever the peers do, exactly
   for a channel that is in it, or full, or without buffers, or without a
   peer: the list is added to only when a full ring is read, and a ring one
   short of full is already not writable.
   */
  lemma OfferedExactly(s: State, c: Id)
    requires Sound(s)
    ensures NeverMissed(s, c) <==> Covered(s, c)
  {
    if Covered(s, c) {
      forall acts | CanRun(s, acts)
        ensures Writable(RunTo(s, acts), c) ==> c in RunTo(s, acts).writeList
      {
        CoveredRun(s, acts, c);
        RingsRun(s, acts);
      }
    } else {
      UncoveredMissed(s, c);
    }
  }

  /** So a write to an offered channel keeps it offered exactly if it leaves room for two more messages. */
  lemma WriteKeepsOffered(s: State, c: Id)
    requires Sound(s) && Armed(s) && Enabled(s, Write(c)) && c in s.writeList && s.chans[c].peer
    ensures NeverMissed(Next(s, Write(c)), c) <==> s.chans[c].peerUse + 1 < s.chans[c].max - 1
  {
    StepSound(s, Write(c));
    OfferedExactly(Next(s, Write(c)), c);
    WithoutMembers(s.writeList, c);
  }

  lemma StepNotReoffered(s: State, a: Action, c: Id)
    requires Sound(s) && Armed(s) && Enabled(s, a) && Disciplined(s, a) && c !in s.writeList && !(a.Add? && a.c == c)
    ensures c !in Next(s, a).writeList
  {
    match a
    case Add(d, chan) => ListedMembers(s.writeList, d);
    case Del(d) => WithoutMembers(s.writeList, d);
    case Write(d) => WithoutMembers(s.writeList, d);
    case _ =>
  }

  /**
   Over every run of a task that reads and writes only what its selections
   offer, a channel that has left the write list is not offered for writing
   again until it is added anew, however much its peer reads.
   */
  lemma {:induction false} NeverReoffered(ss: seq<State>, acts: seq<Action>, n: nat, m: nat, c: Id)
    requires IsRun(ss, acts) && Initial(ss[0]) && n <= m < |ss| && c !in ss[n].writeList
    requires forall i :: 0 <= i < m ==> Disciplined(ss[i], acts[i])
    requires forall i :: n <= i < m ==> !(acts[i].Add? && acts[i].c == c)
    ensures c !in ss[m].writeList
    decreases m
  {
    hide Next, Enabled, Sound, Armed, Disciplined;
    if n < m {
      NeverReoffered(ss, acts, n, m - 1, c);
      NeverSleepsOver(ss, acts, m - 1);
      ListsExact(ss, acts, m - 1);
      assert ss[m - 1 + 1] == Next(ss[m - 1], acts[m - 1]);
      StepNotReoffered(ss[m - 1], acts[m - 1], c);
    }
  }

  /** Asleep in a selection for writing without a time limit, with nothing offered. */
  ghost predicate Stuck(s: State) {
    Sound(s) && Armed(s) && s.pc == Selecting(true, false) && s.writeList == []
  }

  lemma StepStuck(s: State, a: Action)
    requires Stuck(s) && Enabled(s, a)
    ensures Stuck(Next(s, a))
  {
    StepSound(s, a);
    StepArmed(s, a);
  }

  /** Such a task never comes back from that selection, whatever its peers do and however often it is woken. */
  lemma {:induction false} SleepsForEver(ss: seq<State>, acts: seq<Action>, n: nat, m: nat)
    requires IsRun(ss, acts) && Initial(ss[0]) && n <= m < |ss|
    requires forall i :: 0 <= i < n ==> Disciplined(ss[i], acts[i])
    requires ss[n].pc == Selecting(true, false) && ss[n].writeList == []
    ensures ss[m].pc == Selecting(true, false) && Stuck(ss[m])
    decreases m
  {
    hide Next, Enabled, Sound, Armed, Disciplined;
    if n == m {
      NeverSleepsOver(ss, acts, n);
      ListsExact(ss, acts, n);
    } else {
      SleepsForEver(ss, acts, n, m - 1);
      assert ss[m - 1 + 1] == Next(ss[m - 1], acts[m - 1]);
      StepStuck(ss[m - 1], acts[m - 1]);
    }
  }
}
