/**
 A pair of connected channel endpoints (`hev-task-channel.c`), each used by a
 task of its own, as a protocol over every interleaving of reads, writes,
 destroys and wakeups from outside. The ring of an endpoint is its queue of
 messages; `ChannelRing` shows that the code keeps it as one.
 */
module Channel {
  import opened ChannelRing

  /** Where the task of an endpoint stands: in no call, or at one of the three yields. */
  datatype Pc = Idle | Reading(count: nat) | WaitRoom(m: Message) | Syncing(size: nat)

  datatype Receipt = Receipt(data: Message, count: nat)

  /**
   An endpoint: whether its peer pointer and its task pointer are set, its
   reference count, whether its memory is gone, and its ring. Then its task,
   whether the endpoint is still open, and the history of its ring: what was
   sent to it, what each finished write answered, what its reads returned.
   */
  datatype End = End(peer: bool, task: bool, refs: nat, freed: bool, queue: seq<Message>,
                     pc: Pc, runnable: bool, open: bool,
                     sent: seq<Message>, replies: seq<int>, got: seq<Receipt>)

  /** `max` ring slots, buffers of `size` bytes. */
  datatype Shape = Shape(max: nat, size: nat)

  /** The endpoint whose task moves, and the other one. */
  datatype Pair = Pair(me: End, him: End)

  /** How a message lies in the ring: cut to the buffer size, or as it is when there are no buffers. */
  ghost function Stored(c: Shape, m: Message): Message {
    if c.max == 1 then m else Clip(m, c.size)
  }

  // ---------- The code between yields ----------

  ghost function Unref(e: End): End {
    if e.refs <= 1 then e.(refs := 0, freed := true) else e.(refs := e.refs - 1)
  }

  ghost function Woken(e: End): End {
    if e.task then e.(runnable := true) else e
  }

  ghost function Blocked(e: End, pc: Pc): End {
    e.(task := true, pc := pc, runnable := false)
  }

  ghost function Back(e: End): End {
    e.(task := false, pc := Idle)
  }

  /** The rest of a read that found a message. */
  ghost function Taken(c: Shape, p: Pair, count: nat): Pair
    requires p.me.queue != []
  {
    var q := p.me.queue;
    var him := if |q| == c.max && p.me.peer then Woken(p.him) else p.him;
    Pair(Back(p.me).(queue := q[1..], got := p.me.got + [Receipt(Clip(q[0], count), count)]), him)
  }

  ghost function ReadStep(c: Shape, p: Pair, count: nat): Pair {
    if p.me.queue != [] then Taken(c, p, count)
    else if !p.me.peer then Pair(Back(p.me), p.him)
    else Pair(Blocked(p.me, Reading(count)), p.him)
  }

  /** The end of a write: answer and drop the reference. */
  ghost function Answered(p: Pair, answer: int): Pair {
    Pair(Back(p.me), Unref(p.him.(replies := p.him.replies + [answer])))
  }

  /** The loop after the message is in the ring. */
  ghost function SyncStep(c: Shape, p: Pair, size: nat): Pair {
    if |p.him.queue| < c.max then Answered(p, size)
    else if !p.me.peer then Answered(p, -1)
    else Pair(Blocked(p.me, Syncing(size)), p.him)
  }

  /** The message goes into the ring. */
  ghost function Put(c: Shape, p: Pair, m: Message): Pair {
    var him := if p.him.queue == [] then Woken(p.him) else p.him;
    Pair(p.me, him.(queue := p.him.queue + [Stored(c, m)], sent := p.him.sent + [m]))
  }

  /** The loop before the message is in the ring. */
  ghost function RoomStep(c: Shape, p: Pair, m: Message): Pair {
    if |p.him.queue| < c.max then SyncStep(c, Put(c, p, m), |Stored(c, m)|)
    else if !p.me.peer then Pair(Back(p.me), Unref(p.him))
    else Pair(Blocked(p.me, WaitRoom(m)), p.him)
  }

  ghost function WriteStep(c: Shape, p: Pair, m: Message): Pair {
    if !p.me.peer then p else RoomStep(c, Pair(p.me, p.him.(refs := p.him.refs + 1)), m)
  }

  ghost function DestroyStep(p: Pair): Pair {
    var him := if p.me.peer then Woken(p.him.(peer := false)) else p.him;
    Pair(Unref(Woken(p.me).(open := false)), him)
  }

  ghost function ResumeStep(c: Shape, p: Pair): Pair {
    match p.me.pc
    case Idle => p
    case Reading(count) => ReadStep(c, p, count)
    case WaitRoom(m) => RoomStep(c, p, m)
    case Syncing(size) => SyncStep(c, p, size)
  }

  // ---------- The protocol ----------

  datatype Side = Left | Right

  datatype State = State(shape: Shape, left: End, right: End)

  datatype Action =
    | Spurious(side: Side)
    | Read(side: Side, count: nat)
    | Write(side: Side, m: Message)
    | Destroy(side: Side)
    | Resume(side: Side)

  ghost function View(s: State, side: Side): Pair {
    if side.Left? then Pair(s.left, s.right) else Pair(s.right, s.left)
  }

  ghost function Unview(s: State, side: Side, p: Pair): State {
    if side.Left? then s.(left := p.me, right := p.him) else s.(left := p.him, right := p.me)
  }

  /** A task makes calls on its endpoint while it runs, is in no other call, and has not destroyed it. */
  ghost predicate Enabled(s: State, a: Action) {
    var me := View(s, a.side).me;
    match a
    case Spurious(_) => true
    case Resume(_) => me.runnable && !me.pc.Idle?
    case _ => me.runnable && me.pc.Idle? && me.open
  }

  ghost function Act(c: Shape, p: Pair, a: Action): Pair {
    match a
    case Spurious(_) => p.(me := p.me.(runnable := true))
    case Read(_, count) => ReadStep(c, p, count)
    case Write(_, m) => WriteStep(c, p, m)
    case Destroy(_) => DestroyStep(p)
    case Resume(_) => ResumeStep(c, p)
  }

  ghost function Next(s: State, a: Action): State {
    Unview(s, a.side, Act(s.shape, View(s, a.side), a))
  }

  /** `hev_task_channel_new_with_buffers` */
  ghost predicate Initial(s: State) {
    && s.shape.max >= 1
    && (forall side :: var e := View(s, side).me;
          e.peer && !e.task && e.refs == 1 && !e.freed && e.queue == [] && e.pc.Idle? && e.open
          && e.sent == [] && e.replies == [] && e.got == [])
  }

  // ---------- The invariant, one direction at a time ----------

  /** The ring of `a`, its history: what was sent is what was read and then what is in the ring. */
  ghost predicate Flow(c: Shape, a: End) {
    && |a.queue| <= c.max
    && |a.sent| == |a.got| + |a.queue|
    && (forall i {:trigger a.got[i]} :: 0 <= i < |a.got| ==> a.got[i].data == Clip(Stored(c, a.sent[i]), a.got[i].count))
    && (forall i {:trigger a.queue[i]} :: 0 <= i < |a.queue| ==> a.queue[i] == Stored(c, a.sent[|a.got| + i]))
  }

  /** What the writes of `b` into `a` answered. */
  ghost predicate Answers(c: Shape, a: End, b: End) {
    && |a.sent| == |a.replies| + (if b.pc.Syncing? then 1 else 0)
    && (b.pc.Syncing? ==> b.pc.size == |Stored(c, a.sent[|a.replies|])|)
    && (forall i {:trigger a.replies[i]} :: 0 <= i < |a.replies| ==>
          || (a.replies[i] == |Stored(c, a.sent[i])| && (c.max == 1 ==> i < |a.got|))
          || (a.replies[i] == -1 && !a.open && i >= |a.got|))
  }

  /** Pointers and references between reader `a` and writer `b`. */
  ghost predicate Held(a: End, b: End) {
    && a.refs == (if a.open then 1 else 0) + (if b.pc.Syncing? then 1 else 0)
    && (a.freed <==> a.refs == 0)
    && (b.open ==> (b.peer <==> a.open))
    && (a.task <==> !a.pc.Idle?)
    && (!a.open ==> a.pc.Idle?)
    && !a.pc.WaitRoom?
  }

  /** Nobody sleeps over what they wait for, and a writer outside of a call to an open peer has room. */
  ghost predicate Awake(c: Shape, a: End, b: End) {
    && (a.pc.Reading? && (a.queue != [] || !a.peer) ==> a.runnable)
    && (b.pc.Syncing? && (|a.queue| < c.max || !b.peer) ==> b.runnable)
    && (a.open && !b.pc.Syncing? ==> |a.queue| < c.max)
  }

  ghost predicate Half(c: Shape, a: End, b: End) {
    c.max >= 1 && Flow(c, a) && Answers(c, a, b) && Held(a, b) && Awake(c, a, b)
  }

  ghost predicate Good(c: Shape, p: Pair) {
    Half(c, p.me, p.him) && Half(c, p.him, p.me)
  }

  lemma TakenGood(c: Shape, p: Pair, count: nat)
    requires Good(c, p) && p.me.queue != [] && p.me.open && !p.me.pc.Syncing?
    ensures Good(c, Taken(c, p, count))
  {
    var a, a' := p.me, Taken(c, p, count).me;
    assert forall i :: 0 <= i < |a'.queue| ==> a'.queue[i] == a.queue[i + 1];
    assert a.queue[0] == Stored(c, a.sent[|a.got|]);
  }

  lemma ReadGood(c: Shape, p: Pair, count: nat)
    requires Good(c, p) && p.me.open && (p.me.pc.Idle? || p.me.pc == Reading(count))
    ensures Good(c, ReadStep(c, p, count))
  {
    if p.me.queue != [] {
      TakenGood(c, p, count);
    }
  }

  /** As in a `Good` state, but the message is in the ring and its write has not looked at the ring since. */
  ghost predicate Writing(c: Shape, p: Pair, size: nat) {
    && Good(c, Pair(p.me.(pc := Syncing(size), task := true, runnable := true), p.him))
    && p.me.open && p.me.runnable && (p.me.pc.Idle? || p.me.pc == Syncing(size))
  }

  lemma AnsweredGood(c: Shape, p: Pair, size: nat, answer: int)
    requires Writing(c, p, size)
    requires if |p.him.queue| < c.max then answer == size else !p.me.peer && answer == -1
    ensures Good(c, Answered(p, answer))
  {
    var a := Answered(p, answer).him;
    assert forall i :: 0 <= i < |a.replies| - 1 ==> a.replies[i] == p.him.replies[i];
  }

  lemma SyncGood(c: Shape, p: Pair, size: nat)
    requires Writing(c, p, size)
    ensures Good(c, SyncStep(c, p, size))
  {
    hide Answered;
    if |p.him.queue| < c.max {
      AnsweredGood(c, p, size, size);
    } else if !p.me.peer {
      AnsweredGood(c, p, size, -1);
    }
  }

  lemma WriteGood(c: Shape, p: Pair, m: Message)
    requires Good(c, p) && p.me.open && p.me.pc.Idle? && p.me.runnable
    ensures Good(c, WriteStep(c, p, m))
  {
    if p.me.peer {
      var q := Put(c, Pair(p.me, p.him.(refs := p.him.refs + 1)), m);
      assert Flow(c, q.him);
      assert Writing(c, q, |Stored(c, m)|);
      SyncGood(c, q, |Stored(c, m)|);
    }
  }

  lemma DestroyGood(c: Shape, p: Pair)
    requires Good(c, p) && p.me.open && p.me.pc.Idle?
    ensures Good(c, DestroyStep(p))
  {
  }

  lemma ResumeGood(c: Shape, p: Pair)
    requires Good(c, p) && p.me.runnable && !p.me.pc.Idle?
    ensures Good(c, ResumeStep(c, p))
  {
    match p.me.pc
    case Reading(count) => ReadGood(c, p, count);
    case Syncing(size) =>
      assert p.me.(pc := Syncing(size), task := true, runnable := true) == p.me;
      SyncGood(c, p, size);
  }

  lemma StepGood(s: State, a: Action)
    requires Good(s.shape, View(s, a.side)) && Enabled(s, a)
    ensures Good(s.shape, Act(s.shape, View(s, a.side), a))
  {
    var c, p := s.shape, View(s, a.side);
    match a
    case Spurious(_) =>
    case Read(_, count) => ReadGood(c, p, count);
    case Write(_, m) => WriteGood(c, p, m);
    case Destroy(_) => DestroyGood(c, p);
    case Resume(_) => ResumeGood(c, p);
  }

  // ---------- Whole runs ----------

  ghost predicate IsRun(ss: seq<State>, acts: seq<Action>) {
    && |ss| == |acts| + 1
    && forall i :: 0 <= i < |acts| ==> Enabled(ss[i], acts[i]) && ss[i + 1] == Next(ss[i], acts[i])
  }

  lemma {:induction false} RunGood(ss: seq<State>, acts: seq<Action>, n: nat, side: Side)
    requires IsRun(ss, acts) && Initial(ss[0]) && n < |ss|
    ensures Good(ss[n].shape, View(ss[n], side)) && ss[n].shape == ss[0].shape
    decreases n
  {
    hide Act, Enabled;
    if n > 0 {
      var s, a := ss[n - 1], acts[n - 1];
      assert ss[n - 1 + 1] == Next(s, a);
      RunGood(ss, acts, n - 1, a.side);
      StepGood(s, a);
    } else {
      assert View(ss[0], Left).me == ss[0].left && View(ss[0], Right).me == ss[0].right;
    }
  }

  /**
   Over every interleaving, the messages read at an endpoint are the first of
   those written to it, in order and each once, cut as the two calls say; and
   what was written and not read is in the ring.
   */
  lemma Delivery(ss: seq<State>, acts: seq<Action>, n: nat, side: Side)
    requires IsRun(ss, acts) && Initial(ss[0]) && n < |ss|
    ensures
      var c, e := ss[0].shape, View(ss[n], side).me;
      && |e.sent| == |e.got| + |e.queue| && |e.queue| <= c.max
      && (forall i :: 0 <= i < |e.got| ==> e.got[i].data == Clip(Stored(c, e.sent[i]), e.got[i].count))
      && (forall i :: 0 <= i < |e.queue| ==> e.queue[i] == Stored(c, e.sent[|e.got| + i]))
  {
    RunGood(ss, acts, n, side);
  }

  /**
   Every write that put its message in the ring answers with the size stored
   there or -1; -1 only if the reader has destroyed its end without reading
   the message. Without buffers the answer is a size exactly when the message was read.
   */
  lemma WriteAnswers(ss: seq<State>, acts: seq<Action>, n: nat, side: Side, i: nat)
    requires IsRun(ss, acts) && Initial(ss[0]) && n < |ss|
    requires i < |View(ss[n], side).me.replies|
    ensures
      var c, e := ss[0].shape, View(ss[n], side).me;
      && i < |e.sent|
      && (e.replies[i] == |Stored(c, e.sent[i])| || e.replies[i] == -1)
      && (e.replies[i] == -1 ==> !e.open && i >= |e.got|)
      && (c.max == 1 ==> (e.replies[i] == |e.sent[i]| <==> i < |e.got|))
  {
    RunGood(ss, acts, n, side);
  }

  /**
   In every reachable state a task blocked in a read or a write for which
   there is now data, room or no peer is runnable; a task never waits for
   room before its message is in the ring; and without buffers the message in
   the ring of an open endpoint is that of a writer still inside its call, so
   that its memory is there to be read.
   */
  lemma NoLostWakeup(ss: seq<State>, acts: seq<Action>, n: nat, side: Side)
    requires IsRun(ss, acts) && Initial(ss[0]) && n < |ss|
    ensures
      var c, e, f := ss[0].shape, View(ss[n], side).me, View(ss[n], side).him;
      && (e.pc.Reading? && (e.queue != [] || !f.open) ==> e.runnable)
      && (e.pc.Syncing? && (|f.queue| < c.max || !f.open) ==> e.runnable)
      && !e.pc.WaitRoom?
      && (c.max == 1 && e.open && e.queue != [] ==> f.pc.Syncing?)
  {
    RunGood(ss, acts, n, side);
  }

  /** The endpoints whose memory a step reads or writes: its own, and the other one through the pointers it follows. */
  ghost predicate Touches(s: State, a: Action, own: bool) {
    var me := View(s, a.side).me;
    match a
    case Spurious(_) => false
    case Resume(_) => own || me.pc.Syncing? || me.pc.WaitRoom? || me.peer
    case _ => own || me.peer
  }

  /** No step touches an endpoint whose memory has been released. */
  lemma NoFreedPeer(ss: seq<State>, acts: seq<Action>, n: nat, own: bool)
    requires IsRun(ss, acts) && Initial(ss[0]) && n < |acts|
    requires Touches(ss[n], acts[n], own)
    ensures var p := View(ss[n], acts[n].side); !(if own then p.me else p.him).freed
  {
    RunGood(ss, acts, n, acts[n].side);
  }

  /** An endpoint's memory is released exactly when it is destroyed and no write into it is under way. */
  lemma FreedExactly(ss: seq<State>, acts: seq<Action>, n: nat, side: Side)
    requires IsRun(ss, acts) && Initial(ss[0]) && n < |ss|
    ensures var p := View(ss[n], side); p.me.freed <==> !p.me.open && !p.him.pc.Syncing?
  {
    RunGood(ss, acts, n, side);
  }

  ghost predicate Grown(p: Pair, p': Pair) {
    && p.me.sent <= p'.me.sent && p.me.replies <= p'.me.replies && p.me.got <= p'.me.got
    && p.him.sent <= p'.him.sent && p.him.replies <= p'.him.replies && p.him.got <= p'.him.got
  }

  lemma ReadGrown(c: Shape, p: Pair, count: nat)
    ensures Grown(p, ReadStep(c, p, count))
  {
  }

  lemma SyncGrown(c: Shape, p: Pair, size: nat)
    ensures Grown(p, SyncStep(c, p, size))
  {
    hide Answered;
    AnsweredGrown(p, size);
    AnsweredGrown(p, -1);
  }

  lemma AnsweredGrown(p: Pair, answer: int)
    ensures Grown(p, Answered(p, answer))
  {
  }

  lemma GrownOn(p: Pair, q: Pair, r: Pair)
    requires Grown(p, q) && Grown(q, r)
    ensures Grown(p, r)
  {
  }

  lemma PutGrown(c: Shape, p: Pair, m: Message)
    ensures Grown(p, Put(c, p, m))
  {
  }

  lemma RoomGrown(c: Shape, p: Pair, m: Message)
    ensures Grown(p, RoomStep(c, p, m))
  {
    hide SyncStep, Put;
    PutGrown(c, p, m);
    SyncGrown(c, Put(c, p, m), |Stored(c, m)|);
    GrownOn(p, Put(c, p, m), SyncStep(c, Put(c, p, m), |Stored(c, m)|));
  }

  lemma ActGrown(c: Shape, p: Pair, a: Action)
    ensures Grown(p, Act(c, p, a))
  {
    hide ReadStep, SyncStep, RoomStep;
    match a
    case Spurious(_) =>
    case Read(_, count) => ReadGrown(c, p, count);
    case Write(_, m) => RoomGrown(c, Pair(p.me, p.him.(refs := p.him.refs + 1)), m);
    case Destroy(_) =>
    case Resume(_) =>
      match p.me.pc {
        case Idle =>
        case Reading(count) => ReadGrown(c, p, count);
        case WaitRoom(m) => RoomGrown(c, p, m);
        case Syncing(size) => SyncGrown(c, p, size);
      }
  }

  /** Nothing sent, answered or read is ever taken back. */
  lemma HistoryGrows(s: State, a: Action, side: Side)
    ensures var e, e' := View(s, side).me, View(Next(s, a), side).me;
      e.sent <= e'.sent && e.replies <= e'.replies && e.got <= e'.got
  {
    hide Act;
    ActGrown(s.shape, View(s, a.side), a);
  }
}
