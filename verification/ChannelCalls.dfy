/**
 The histories of `Channel` against the calls themselves: what was sent on a
 channel is the messages of the writes made to an open peer, and what was
 received answers the reads made, whatever the tasks did in between.
 */
module ChannelCalls {
  import opened Common
  import opened ChannelRing
  import opened Channel

  /** Made by a task that may make it. */
  ghost predicate Allowed(p: Pair, a: Action) {
    match a
    case Spurious(_) => true
    case Resume(_) => p.me.runnable && !p.me.pc.Idle?
    case _ => p.me.runnable && p.me.pc.Idle? && p.me.open
  }

  // ---------- One step ----------

  /** A write to an open peer adds its message to what was sent there, and nothing else ever does. */
  lemma SentStep(c: Shape, p: Pair, a: Action)
    requires Good(c, p) && Allowed(p, a)
    ensures Act(c, p, a).me.sent == p.me.sent
    ensures Act(c, p, a).him.sent == p.him.sent + (if a.Write? && p.him.open then [a.m] else [])
    ensures Act(c, p, a).me.open == (p.me.open && !a.Destroy?) && Act(c, p, a).him.open == p.him.open
  {
    hide Flow, Answers;
  }

  /** The count of the read that this step begins or goes on with, if it is such a step. */
  ghost function ReadOf(p: Pair, a: Action): Option<nat> {
    if a.Read? then Some(a.count) else if a.Resume? && p.me.pc.Reading? then Some(p.me.pc.count) else None
  }

  /** A read takes the first message there is, ends without one if the peer is gone, and else waits. */
  lemma ReadStepExact(c: Shape, p: Pair, a: Action)
    requires Good(c, p) && Allowed(p, a)
    ensures
      var q, read := Act(c, p, a), ReadOf(p, a);
      && q.him.got == p.him.got
      && q.me.got == p.me.got + (if read.Some? && p.me.queue != [] then [Receipt(Clip(p.me.queue[0], read.value), read.value)] else [])
      && (read.Some? ==> q.me.pc == if p.me.queue == [] && p.him.open then Reading(read.value) else Idle)
      && (read.None? && q.me.pc.Reading? ==> a.Spurious? && q.me.pc == p.me.pc)
      && q.him.pc == p.him.pc
  {
    hide Flow, Answers;
  }

  /**
   A write without a peer does nothing. One that leaves a slot free answers at
   once with the size stored; one that fills the ring waits for its peer to read.
   */
  lemma WriteStepExact(c: Shape, p: Pair, m: Message, side: Side)
    requires Good(c, p) && Allowed(p, Write(side, m))
    ensures
      var q := Act(c, p, Write(side, m));
      && (!p.him.open ==> q == p)
      && (p.him.open ==> q.him.queue == p.him.queue + [Stored(c, m)])
      && (p.him.open && |p.him.queue| + 1 < c.max ==> q.me.pc.Idle? && q.him.replies == p.him.replies + [|Stored(c, m)|])
      && (p.him.open && |p.him.queue| + 1 == c.max ==> q.me.pc == Syncing(|Stored(c, m)|) && q.him.replies == p.him.replies)
  {
    hide Flow, Answers;
  }

  // ---------- Over runs ----------

  ghost function Other(side: Side): Side {
    if side.Left? then Right else Left
  }

  /** The endpoint has been destroyed in the first `n` steps. */
  ghost predicate Gone(acts: seq<Action>, n: nat, side: Side)
    requires n <= |acts|
  {
    n > 0 && (acts[n - 1] == Destroy(side) || Gone(acts, n - 1, side))
  }

  /** The messages of the writes made to an endpoint while it was open, in the first `n` steps. */
  ghost function SentTo(acts: seq<Action>, n: nat, side: Side): seq<Message>
    requires n <= |acts|
  {
    if n == 0 then []
    else
      var a := acts[n - 1];
      SentTo(acts, n - 1, side) + (if a.Write? && a.side != side && !Gone(acts, n - 1, side) then [a.m] else [])
  }

  lemma StepAt(ss: seq<State>, acts: seq<Action>, n: nat)
    requires IsRun(ss, acts) && Initial(ss[0]) && n < |acts|
    ensures
      var a, p := acts[n], View(ss[n], acts[n].side);
      Good(ss[0].shape, p) && Allowed(p, a) && View(ss[n + 1], a.side) == Act(ss[0].shape, p, a)
    ensures View(ss[n], Other(acts[n].side)) == Pair(View(ss[n], acts[n].side).him, View(ss[n], acts[n].side).me)
    ensures View(ss[n + 1], Other(acts[n].side)) == Pair(View(ss[n + 1], acts[n].side).him, View(ss[n + 1], acts[n].side).me)
  {
    hide Good, Act;
    RunGood(ss, acts, n, acts[n].side);
    assert Enabled(ss[n], acts[n]) && ss[n + 1] == Next(ss[n], acts[n]);
  }

  /** What was sent to an endpoint is a function of the calls alone. */
  lemma {:induction false} SentIs(ss: seq<State>, acts: seq<Action>, n: nat, side: Side)
    requires IsRun(ss, acts) && Initial(ss[0]) && n < |ss|
    ensures View(ss[n], side).me.sent == SentTo(acts, n, side)
    ensures View(ss[n], side).me.open <==> !Gone(acts, n, side)
  {
    hide Good, Act;
    if n > 0 {
      SentIs(ss, acts, n - 1, side);
      StepAt(ss, acts, n - 1);
      SentStep(ss[0].shape, View(ss[n - 1], acts[n - 1].side), acts[n - 1]);
      hide IsRun, Initial;
    }
  }

  /**
   The messages read at an endpoint are, in order and each once, the first of
   those that the writes made to it while it was open had as their arguments,
   cut to the buffer size if there are buffers and to the count of their read.
   */
  lemma WritesDelivered(ss: seq<State>, acts: seq<Action>, n: nat, side: Side)
    requires IsRun(ss, acts) && Initial(ss[0]) && n < |ss|
    ensures
      var c, e, sent := ss[0].shape, View(ss[n], side).me, SentTo(acts, n, side);
      && |sent| == |e.got| + |e.queue|
      && (forall i :: 0 <= i < |e.got| ==> e.got[i].data == Clip(Stored(c, sent[i]), e.got[i].count))
      && (forall i :: 0 <= i < |e.queue| ==> e.queue[i] == Stored(c, sent[|e.got| + i]))
      && |e.replies| <= |sent|
  {
    SentIs(ss, acts, n, side);
    Delivery(ss, acts, n, side);
    RunGood(ss, acts, n, side);
    hide IsRun, Initial, SentTo;
  }

  /** The i-th answer is to the i-th of those writes: the size stored, or -1 if the reader went without reading it. */
  lemma WritesAnswered(ss: seq<State>, acts: seq<Action>, n: nat, side: Side, i: nat)
    requires IsRun(ss, acts) && Initial(ss[0]) && n < |ss| && i < |View(ss[n], side).me.replies|
    ensures
      var c, e, sent := ss[0].shape, View(ss[n], side).me, SentTo(acts, n, side);
      && i < |sent|
      && (e.replies[i] == |Stored(c, sent[i])| || (e.replies[i] == -1 && Gone(acts, n, side) && i >= |e.got|))
      && (c.max == 1 ==> (e.replies[i] == |sent[i]| <==> i < |e.got|))
  {
    SentIs(ss, acts, n, side);
    WriteAnswers(ss, acts, n, side, i);
    hide IsRun, Initial, SentTo, Gone;
  }

  /** The count of the last read made at an endpoint in the first `n` steps. */
  ghost function LastRead(acts: seq<Action>, n: nat, side: Side): Option<nat>
    requires n <= |acts|
  {
    if n == 0 then None
    else if acts[n - 1].Read? && acts[n - 1].side == side then Some(acts[n - 1].count)
    else LastRead(acts, n - 1, side)
  }

  /** A task waiting in a read waits in the one it made last. */
  lemma {:induction false} WaitsInLast(ss: seq<State>, acts: seq<Action>, n: nat, side: Side)
    requires IsRun(ss, acts) && Initial(ss[0]) && n < |ss|
    ensures var pc := View(ss[n], side).me.pc; pc.Reading? ==> LastRead(acts, n, side) == Some(pc.count)
  {
    hide Good, Act;
    if n > 0 {
      WaitsInLast(ss, acts, n - 1, side);
      StepAt(ss, acts, n - 1);
      ReadStepExact(ss[0].shape, View(ss[n - 1], acts[n - 1].side), acts[n - 1]);
      hide IsRun, Initial;
    }
  }

  /**
   A receipt is added exactly when the task of the endpoint, in the read it made
   last, finds a message: it is the first of the queue, cut to the count of that read.
   */
  lemma ReceiptIs(ss: seq<State>, acts: seq<Action>, n: nat, side: Side)
    requires IsRun(ss, acts) && Initial(ss[0]) && n < |acts|
    ensures
      var e, e', a := View(ss[n], side).me, View(ss[n + 1], side).me, acts[n];
      var reading := a.side == side && (a.Read? || (a.Resume? && e.pc.Reading?));
      && (reading ==> LastRead(acts, n + 1, side).Some?)
      && e'.got == e.got + (if reading && e.queue != []
                            then [Receipt(Clip(e.queue[0], LastRead(acts, n + 1, side).value), LastRead(acts, n + 1, side).value)]
                            else [])
  {
    hide Good, Act;
    WaitsInLast(ss, acts, n, side);
    StepAt(ss, acts, n);
    ReadStepExact(ss[0].shape, View(ss[n], acts[n].side), acts[n]);
    hide IsRun, Initial;
  }
}
