/**
 The protocol between the client tasks of a DNS proxy and the handler on the
 aide thread (`hev-task-dns-proxy.c`), over two byte streams that keep order,
 and the draining of the handler before the proxy is freed. System calls
 interrupted or told to try again are repeated, which changes nothing here.
 */
module DnsProxy {
  import opened Common

  type Client = nat

  /** The two bytes: 's' for a call, 'd' for the drain. */
  datatype Mark = S | D

  /** Where the client that has the mutex stands in `hev_task_dns_proxy_call`. */
  datatype Phase = Free | Locked(c: Client) | Ready(c: Client) | Waiting(c: Client) | Answered(c: Client)

  /**
   Where the handler stands: not running, before its read, and with a byte in
   hand before its test of the call pointer, before its second look at the
   pointer for the type, before its third for the argument, in the resolver on
   behalf of a client, before its echo, or gone with a null pointer followed.
   */
  datatype Server = Resting | AtRead | AtTest(sync: Mark) | AtType(sync: Mark) | AtArg(sync: Mark)
                  | Resolving(sync: Mark, c: Client) | AtEcho(sync: Mark) | Faulted(sync: Mark)

  datatype Drain = NotYet | Cleared | Sent | Drained

  /**
   `down` and `up` are the streams to and from the handler; `call` and `sched`
   are the fields of the proxy (no scheduled task stands for the dummy).
   History: the calls begun, executed and returned from, in order.
   */
  datatype State = State(phase: Phase, server: Server, drain: Drain, down: seq<Mark>, up: seq<Mark>,
                         call: Option<Client>, sched: Option<Client>,
                         begun: seq<Client>, executed: seq<Client>, returned: seq<Client>)

  datatype Action =
    | Lock(c: Client)
    | SetCall
    | WriteRequest
    | ReadAnswer
    | Unlock
    | Activate
    | HandlerRead
    | HandlerTest
    | HandlerType
    | HandlerArg
    | HandlerEnd
    | HandlerEcho
    | DrainBegin
    | DrainWrite
    | DrainRead

  /** Steps in which the handler follows the call pointer. */
  ghost predicate Follows(a: Action) {
    a.HandlerType? || a.HandlerArg? || a.HandlerEnd?
  }

  /** Steps of the handler, which go through the proxy or a call in it. */
  ghost predicate Touches(a: Action) {
    a.Activate? || a.HandlerRead? || a.HandlerTest? || Follows(a) || a.HandlerEcho?
  }

  /**
   Clients take their steps until the draining begins, whatever they and the
   handler are in the middle of then. The aide thread runs the handler when
   there is a byte to read.
   */
  ghost predicate Enabled(s: State, a: Action) {
    match a
    case Lock(c) => s.drain.NotYet? && s.phase.Free?
    case SetCall => s.drain.NotYet? && s.phase.Locked?
    case WriteRequest => s.drain.NotYet? && s.phase.Ready?
    case ReadAnswer => s.drain.NotYet? && s.phase.Waiting? && s.up != []
    case Unlock => s.drain.NotYet? && s.phase.Answered?
    case Activate => s.server.Resting? && s.down != []
    case HandlerRead => s.server.AtRead?
    case HandlerTest => s.server.AtTest?
    case HandlerType => s.server.AtType?
    case HandlerArg => s.server.AtArg?
    case HandlerEnd => s.server.Resolving?
    case HandlerEcho => s.server.AtEcho?
    case DrainBegin => s.drain.NotYet?
    case DrainWrite => s.drain.Cleared?
    case DrainRead => s.drain.Sent? && s.up != []
  }

  ghost function Next(s: State, a: Action): State
    requires Enabled(s, a)
  {
    match a
    case Lock(c) => s.(phase := Locked(c))
    case SetCall => s.(phase := Ready(s.phase.c), call := Some(s.phase.c), sched := Some(s.phase.c), begun := s.begun + [s.phase.c])
    case WriteRequest => s.(phase := Waiting(s.phase.c), down := s.down + [S])
    case ReadAnswer => s.(phase := Answered(s.phase.c), up := s.up[1..], sched := None, returned := s.returned + [s.phase.c])
    case Unlock => s.(phase := Free)
    case Activate => s.(server := AtRead)
    case HandlerRead =>
      if s.down == [] then s.(server := Resting) else s.(server := AtTest(s.down[0]), down := s.down[1..])
    case HandlerTest => s.(server := if s.call.None? then AtEcho(s.server.sync) else AtType(s.server.sync))
    case HandlerType => s.(server := if s.call.None? then Faulted(s.server.sync) else AtArg(s.server.sync))
    case HandlerArg => s.(server := if s.call.None? then Faulted(s.server.sync) else Resolving(s.server.sync, s.call.value))
    case HandlerEnd => s.(server := AtEcho(s.server.sync), executed := s.executed + [s.server.c])
    case HandlerEcho =>
      s.(up := s.up + [s.server.sync], server := if s.server.sync == D then Resting else AtRead)
    case DrainBegin => s.(drain := Cleared, call := None)
    case DrainWrite => s.(drain := Sent, down := s.down + [D])
    case DrainRead => s.(up := s.up[1..], drain := if s.up[0] == D then Drained else Sent)
  }

  ghost predicate InHand(s: State) {
    !s.server.Resting? && !s.server.AtRead?
  }

  ghost function Whole(up: seq<Mark>, hand: seq<Mark>, down: seq<Mark>): seq<Mark> {
    up + hand + down
  }

  /** The bytes on their way, in the order in which they will come back. */
  ghost function Stream(s: State): seq<Mark> {
    Whole(s.up, if InHand(s) then [s.server.sync] else [], s.down)
  }

  /** What may be on its way: the request of a waiting client, or one left over when the draining began; then the drain byte. */
  ghost predicate StreamOk(s: State) {
    match s.drain
    case NotYet => Stream(s) == if s.phase.Waiting? then [S] else []
    case Cleared => Stream(s) == [] || Stream(s) == [S]
    case Sent => Stream(s) == [D] || Stream(s) == [S, D]
    case Drained => Stream(s) == []
  }

  /** Once the drain byte is echoed the handler has left. */
  ghost predicate Left(s: State) {
    (s.drain.Drained? || D in s.up) ==> s.server.Resting? && s.down == []
  }

  /** A call is under way and not executed yet. */
  ghost predicate Open(s: State) {
    s.phase.Ready? || (s.phase.Waiting? && ((InHand(s) && !s.server.AtEcho?) || s.down != []))
  }

  /** Before the draining: returned, executed and begun differ by the one call under way, which is the one the handler has. */
  ghost predicate CallsOk(s: State) {
    && (s.phase.Ready? || s.phase.Waiting? ==> s.begun == s.returned + [s.phase.c] && s.call == s.sched == Some(s.phase.c))
    && (s.phase.Free? || s.phase.Locked? || s.phase.Answered? ==> s.begun == s.returned && s.sched.None?)
    && s.executed == (if Open(s) then s.returned else s.begun)
    && !s.server.Faulted? && (s.server.Resolving? ==> s.phase == Waiting(s.server.c))
  }

  /** From then on at most the call under way is executed, and only if the handler had it already. */
  ghost predicate DrainOk(s: State) {
    && s.call.None? && s.returned <= s.executed <= s.begun && |s.begun| <= |s.returned| + 1
    && (s.server.Resolving? ==> s.begun == s.returned + [s.server.c] && s.executed == s.returned)
  }

  ghost predicate Good(s: State) {
    StreamOk(s) && Left(s) && (if s.drain.NotYet? then CallsOk(s) else DrainOk(s))
  }

  ghost predicate Initial(s: State) {
    s.phase.Free? && s.server.Resting? && s.drain.NotYet? && s.down == [] && s.up == [] && s.sched.None?
    && s.begun == [] && s.executed == [] && s.returned == []
  }

  /** What a step does to the bytes on their way: one joins at the end, one leaves at the front, or they just move on. */
  ghost function Moved(stream: seq<Mark>, a: Action): seq<Mark> {
    if a.WriteRequest? then stream + [S]
    else if a.DrainWrite? then stream + [D]
    else if (a.ReadAnswer? || a.DrainRead?) && stream != [] then stream[1..]
    else stream
  }

  lemma Joins(up: seq<Mark>, hand: seq<Mark>, down: seq<Mark>, x: Mark)
    ensures Whole(up, hand, down + [x]) == Whole(up, hand, down) + [x]
    ensures up != [] ==> Whole(up, hand, down) != [] && Whole(up[1..], hand, down) == Whole(up, hand, down)[1..]
    ensures down != [] ==> Whole(up, [down[0]], down[1..]) == Whole(up, [], down)
    ensures Whole(up + [x], [], down) == Whole(up, [x], down)
  {
  }

  lemma StreamMoves(s: State, a: Action)
    requires Enabled(s, a)
    ensures Stream(Next(s, a)) == Moved(Stream(s), a)
  {
    hide Whole;
    var hand: seq<Mark> := if InHand(s) then [s.server.sync] else [];
    Joins(s.up, hand, s.down, if a.HandlerEcho? then s.server.sync else if a.DrainWrite? then D else S);
  }

  /** Where the bytes of a short stream are. */
  lemma Places(s: State)
    ensures |Stream(s)| == |s.up| + (if InHand(s) then 1 else 0) + |s.down|
    ensures s.up <= Stream(s)
    ensures InHand(s) ==> Stream(s)[|s.up|] == s.server.sync
    ensures forall i :: 0 <= i < |s.down| ==> s.down[i] == Stream(s)[|Stream(s)| - |s.down| + i]
  {
  }

  lemma MovedShort(stream: seq<Mark>, a: Action)
    ensures stream == [] ==> Moved(stream, a) == if a.WriteRequest? then [S] else if a.DrainWrite? then [D] else []
    ensures stream == [S] ==> (a.DrainWrite? ==> Moved(stream, a) == [S, D]) && (a.ReadAnswer? || a.DrainRead? ==> Moved(stream, a) == [])
    ensures stream == [D] && (a.ReadAnswer? || a.DrainRead?) ==> Moved(stream, a) == []
    ensures stream == [S, D] && (a.ReadAnswer? || a.DrainRead?) ==> Moved(stream, a) == [D]
    ensures !a.WriteRequest? && !a.DrainWrite? && !a.ReadAnswer? && !a.DrainRead? ==> Moved(stream, a) == stream
  {
  }

  /** Before the draining, and through its beginning. */
  lemma StreamBefore(s: State, a: Action)
    requires StreamOk(s) && Enabled(s, a) && s.drain.NotYet?
    ensures StreamOk(Next(s, a))
  {
    StreamMoves(s, a);
    MovedShort(Stream(s), a);
    hide Stream, Moved;
  }

  /** While the draining goes on. */
  lemma StreamDuring(s: State, a: Action)
    requires StreamOk(s) && Enabled(s, a) && !s.drain.NotYet?
    ensures StreamOk(Next(s, a))
  {
    StreamMoves(s, a);
    MovedShort(Stream(s), a);
    Places(s);
    hide Stream, Moved;
  }

  lemma LeftGood(s: State, a: Action)
    requires Good(s) && Enabled(s, a)
    ensures Left(Next(s, a))
  {
    Places(s);
    hide Stream;
  }

  lemma CallsGood(s: State, a: Action)
    requires Good(s) && Enabled(s, a)
    ensures if Next(s, a).drain.NotYet? then CallsOk(Next(s, a)) else DrainOk(Next(s, a))
  {
    Places(s);
    hide Stream;
  }

  lemma StepGood(s: State, a: Action)
    requires Good(s) && Enabled(s, a)
    ensures Good(Next(s, a))
  {
    hide StreamOk, Left, CallsOk, DrainOk;
    if s.drain.NotYet? {
      StreamBefore(s, a);
    } else {
      StreamDuring(s, a);
    }
    LeftGood(s, a);
    CallsGood(s, a);
  }

  // ---------- Whole runs ----------

  ghost predicate IsRun(ss: seq<State>, acts: seq<Action>) {
    && |ss| == |acts| + 1
    && forall i :: 0 <= i < |acts| ==> Enabled(ss[i], acts[i]) && ss[i + 1] == Next(ss[i], acts[i])
  }

  lemma {:induction false} RunGood(ss: seq<State>, acts: seq<Action>, n: nat)
    requires IsRun(ss, acts) && Initial(ss[0]) && n < |ss|
    ensures Good(ss[n])
  {
    hide Next, Enabled;
    if n > 0 {
      RunGood(ss, acts, n - 1);
      assert ss[n - 1 + 1] == Next(ss[n - 1], acts[n - 1]);
      StepGood(ss[n - 1], acts[n - 1]);
    }
  }

  /**
   In every run, calls are executed in the order they were begun, each at
   most once, and each before its caller goes on: at any time the calls
   returned from are the first of those executed, and those the first of
   those begun, of which at most one is under way.
   */
  lemma ExactlyOnce(ss: seq<State>, acts: seq<Action>, n: nat)
    requires IsRun(ss, acts) && Initial(ss[0]) && n < |ss|
    ensures ss[n].returned <= ss[n].executed <= ss[n].begun && |ss[n].begun| <= |ss[n].returned| + 1
  {
    RunGood(ss, acts, n);
  }

  /** The clients that have taken the mutex, in order, in the first `n` steps. */
  ghost function Lockers(acts: seq<Action>, n: nat): seq<Client>
    requires n <= |acts|
  {
    if n == 0 then [] else Lockers(acts, n - 1) + (if acts[n - 1].Lock? then [acts[n - 1].c] else [])
  }

  datatype Part = Begin | Execute | Return

  ghost predicate Counted(a: Action, part: Part) {
    match part
    case Begin => a.SetCall?
    case Execute => a.HandlerEnd?
    case Return => a.ReadAnswer?
  }

  /** How many of the first `n` steps set a call, ended one in the handler, or read an answer. */
  ghost function Steps(acts: seq<Action>, n: nat, part: Part): nat
    requires n <= |acts|
  {
    if n == 0 then 0 else Steps(acts, n - 1, part) + (if Counted(acts[n - 1], part) then 1 else 0)
  }

  lemma HistoryStep(s: State, a: Action)
    requires Enabled(s, a)
    ensures
      var s' := Next(s, a);
      && |s'.begun| == |s.begun| + (if Counted(a, Begin) then 1 else 0)
      && |s'.executed| == |s.executed| + (if Counted(a, Execute) then 1 else 0)
      && |s'.returned| == |s.returned| + (if Counted(a, Return) then 1 else 0)
      && s'.begun + (if s'.phase.Locked? then [s'.phase.c] else []) == s.begun + (if s.phase.Locked? then [s.phase.c] else []) + (if a.Lock? then [a.c] else [])
  {
  }

  /**
   The histories are those of the steps: calls are begun by the clients that
   take the mutex, in that order and once each, and the call of each client
   is executed and returned from by as many steps of the handler and of the clients.
   */
  lemma {:induction false} HistoryIs(ss: seq<State>, acts: seq<Action>, n: nat)
    requires IsRun(ss, acts) && Initial(ss[0]) && n < |ss|
    ensures ss[n].begun + (if ss[n].phase.Locked? then [ss[n].phase.c] else []) == Lockers(acts, n)
    ensures |ss[n].begun| == Steps(acts, n, Begin) && |ss[n].executed| == Steps(acts, n, Execute) && |ss[n].returned| == Steps(acts, n, Return)
  {
    hide Next, Enabled;
    if n > 0 {
      HistoryIs(ss, acts, n - 1);
      assert ss[n - 1 + 1] == Next(ss[n - 1], acts[n - 1]);
      HistoryStep(ss[n - 1], acts[n - 1]);
    }
  }

  /** So the calls executed are, in order and once each, those of the first clients that took the mutex. */
  lemma ExecutedInOrder(ss: seq<State>, acts: seq<Action>, n: nat)
    requires IsRun(ss, acts) && Initial(ss[0]) && n < |ss|
    ensures Steps(acts, n, Return) <= Steps(acts, n, Execute) <= Steps(acts, n, Begin) <= |Lockers(acts, n)|
    ensures ss[n].executed == Lockers(acts, n)[..Steps(acts, n, Execute)] && ss[n].returned == Lockers(acts, n)[..Steps(acts, n, Return)]
  {
    HistoryIs(ss, acts, n);
    ExactlyOnce(ss, acts, n);
    hide IsRun, Initial, Lockers, Steps;
  }

  /** The caller that goes on is the one whose call was executed last, and all calls begun have been. */
  lemma ExecutedBeforeReturn(ss: seq<State>, acts: seq<Action>, n: nat)
    requires IsRun(ss, acts) && Initial(ss[0]) && n < |acts| && acts[n].ReadAnswer?
    ensures ss[n].executed == ss[n].begun == ss[n].returned + [ss[n].phase.c] == ss[n + 1].returned
    ensures ss[n].sched == Some(ss[n].phase.c)
  {
    RunGood(ss, acts, n);
    Places(ss[n]);
    hide Stream;
  }

  lemma {:induction false} StaysDrained(ss: seq<State>, acts: seq<Action>, n: nat, m: nat)
    requires IsRun(ss, acts) && n <= m < |ss| && ss[n].drain.Drained?
    ensures ss[m].drain.Drained?
    decreases m - n
  {
    if n < m {
      StaysDrained(ss, acts, n, m - 1);
      assert ss[m - 1 + 1] == Next(ss[m - 1], acts[m - 1]);
    }
  }

  /** The handler comes to rest only with nothing left for it to read. */
  lemma RestsWhenDone(s: State, a: Action)
    requires Good(s) && Enabled(s, a) && !s.server.Resting? && Next(s, a).server.Resting?
    ensures Next(s, a).down == []
  {
    StepGood(s, a);
    hide Stream;
  }

  /** Once the draining side has read the echo of its byte, the handler never goes through the proxy again. */
  lemma DrainedUntouched(ss: seq<State>, acts: seq<Action>, n: nat, m: nat)
    requires IsRun(ss, acts) && Initial(ss[0]) && n <= m < |acts| && ss[n].drain.Drained?
    ensures !Touches(acts[m])
  {
    StaysDrained(ss, acts, n, m);
    RunGood(ss, acts, m);
    Places(ss[m]);
  }

  // ---------- The call pointer ----------

  /** The pointer the handler is about to follow: the field, or the argument it was called with. */
  ghost function Pointer(s: State): Option<Client> {
    if s.server.Resolving? then Some(s.server.c) else s.call
  }

  /** It is that of a client still there, waiting, whose call has not been executed. */
  ghost predicate Alive(s: State) {
    && s.drain.NotYet? && Pointer(s).Some? && s.phase == Waiting(Pointer(s).value)
    && s.begun == s.executed + [Pointer(s).value]
  }

  lemma {:induction false} DrainBegun(ss: seq<State>, acts: seq<Action>, n: nat, m: nat)
    requires IsRun(ss, acts) && n <= m < |ss| && ss[n].drain.NotYet?
    ensures ss[m].drain.NotYet? <==> forall i :: n <= i < m ==> !acts[i].DrainBegin?
    decreases m - n
  {
    if n < m {
      DrainBegun(ss, acts, n, m - 1);
      assert ss[m - 1 + 1] == Next(ss[m - 1], acts[m - 1]);
    }
  }

  /** Every step that follows the pointer comes after a test that found a call; until the draining begins it follows it well. */
  lemma CallAlive(ss: seq<State>, acts: seq<Action>, n: nat)
    requires IsRun(ss, acts) && Initial(ss[0]) && n < |acts| && Follows(acts[n])
    ensures Alive(ss[n]) <==> ss[n].drain.NotYet?
    ensures Next(ss[n], acts[n]).server.Faulted? <==> !ss[n].drain.NotYet? && !acts[n].HandlerEnd?
  {
    RunGood(ss, acts, n);
    Places(ss[n]);
    hide Stream;
  }

  lemma CallNotYet(s: State)
    requires Good(s) && s.call.Some?
    ensures s.drain.NotYet?
  {
  }

  /**
   A handler that has found a call, and follows the pointer later on, follows
   it to the unexecuted call of a client that waits for it exactly if no
   draining has begun since it looked.
   */
  lemma AliveExactly(ss: seq<State>, acts: seq<Action>, n: nat, m: nat)
    requires IsRun(ss, acts) && Initial(ss[0]) && n < m < |acts|
    requires acts[n].HandlerTest? && ss[n].call.Some? && Follows(acts[m])
    ensures Alive(ss[m]) <==> forall i :: n <= i < m ==> !acts[i].DrainBegin?
  {
    hide Good, Alive, Next;
    RunGood(ss, acts, n);
    CallNotYet(ss[n]);
    DrainBegun(ss, acts, n, m);
    CallAlive(ss, acts, m);
  }

  // ---------- When it is safe to begin the draining ----------

  ghost predicate CanRun(s: State, acts: seq<Action>)
    decreases |acts|
  {
    acts == [] || (Enabled(s, acts[0]) && CanRun(Next(s, acts[0]), acts[1..]))
  }

  ghost function RunTo(s: State, acts: seq<Action>): State
    requires CanRun(s, acts)
    decreases |acts|
  {
    if acts == [] then s else RunTo(Next(s, acts[0]), acts[1..])
  }

  /** In no continuation does the handler follow the pointer of a call any more. */
  ghost predicate NeverFollows(s: State) {
    forall acts, a | CanRun(s, acts) && Follows(a) :: !Enabled(RunTo(s, acts), a)
  }

  /** The handler has found a call and not finished with it. */
  ghost predicate Busy(s: State) {
    s.server.AtType? || s.server.AtArg? || s.server.Resolving?
  }

  lemma {:induction false} IdleStays(s: State, acts: seq<Action>)
    requires !s.drain.NotYet? && s.call.None? && !Busy(s) && CanRun(s, acts)
    ensures !Busy(RunTo(s, acts))
    decreases |acts|
  {
    if acts != [] {
      IdleStays(Next(s, acts[0]), acts[1..]);
    }
  }

  /**
   The draining can begin without the handler ever following the pointer to
   a call again exactly when the handler is not between its test and the end
   of the call; in between, its next look at the field finds null.
   */
  lemma DrainSafe(s: State)
    requires Enabled(s, DrainBegin)
    ensures NeverFollows(Next(s, DrainBegin)) <==> !Busy(s)
    ensures s.server.AtType? ==> Next(Next(s, DrainBegin), HandlerType).server.Faulted?
    ensures s.server.AtArg? ==> Next(Next(s, DrainBegin), HandlerArg).server.Faulted?
  {
    var d := Next(s, DrainBegin);
    if Busy(s) {
      assert CanRun(d, []) && RunTo(d, []) == d;
      var a := if s.server.AtType? then HandlerType else if s.server.AtArg? then HandlerArg else HandlerEnd;
      assert Follows(a) && Enabled(d, a);
    } else {
      forall acts, a | CanRun(d, acts) && Follows(a)
        ensures !Enabled(RunTo(d, acts), a)
      {
        IdleStays(d, acts);
      }
    }
  }

  /** With no client in a call there is nothing the handler could be in the middle of. */
  lemma QuietIsSafe(s: State)
    requires Good(s) && s.drain.NotYet? && !s.phase.Waiting?
    ensures !Busy(s)
  {
    Places(s);
  }

  lemma OneMore(ss: seq<State>, acts: seq<Action>, a: Action)
    requires IsRun(ss, acts) && Enabled(ss[|acts|], a)
    ensures IsRun(ss + [Next(ss[|acts|], a)], acts + [a])
  {
    hide Next, Enabled;
  }

  /** A client calls, and the handler has read its byte. */
  lemma CallRead() returns (ss: seq<State>, acts: seq<Action>)
    ensures IsRun(ss, acts) && Initial(ss[0])
    ensures var s := ss[|acts|]; s.server == AtTest(S) && s.call == Some(0) && s.drain.NotYet?
  {
    var s0 := State(Free, Resting, NotYet, [], [], None, None, [], [], []);
    var s1 := s0.(phase := Locked(0));
    var s2 := s0.(phase := Ready(0), call := Some(0), sched := Some(0), begun := [0]);
    var s3 := s2.(phase := Waiting(0), down := [S]);
    var s4 := s3.(server := AtRead);
    ss := [s0, s1, s2, s3, s4, s3.(server := AtTest(S), down := [])];
    acts := [Lock(0), SetCall, WriteRequest, Activate, HandlerRead];
  }

  /** The failing interleaving is real: a client calls, the handler looks, the draining begins, the handler looks again. */
  lemma FaultReached() returns (ss: seq<State>, acts: seq<Action>)
    ensures IsRun(ss, acts) && Initial(ss[0]) && ss[|acts|].server.Faulted?
  {
    hide IsRun;
    ss, acts := CallRead();
    var s := ss[|acts|];
    var s1 := Next(s, HandlerTest);
    var s2 := Next(s1, DrainBegin);
    OneMore(ss, acts, HandlerTest);
    OneMore(ss + [s1], acts + [HandlerTest], DrainBegin);
    OneMore(ss + [s1] + [s2], acts + [HandlerTest] + [DrainBegin], HandlerType);
    ss, acts := ss + [s1] + [s2] + [Next(s2, HandlerType)], acts + [HandlerTest] + [DrainBegin] + [HandlerType];
  }
}
