/**
 `hev_task_io_splice` over circular buffers (`hev-task-io.c`): two directions,
 each reading into its buffer and writing out of it, until both have ended.
 What the system calls answer is given as a script.
 */
module Splice {
  import opened CircularBuffer
  import opened Common
  import opened RingWindow

  /** What `readv` would answer: it has these bytes (and takes what fits), it would block, or end of file or an error. */
  datatype Input = Bytes(bytes: seq<Byte>) | NoInput | EndOfInput

  /** What `writev` would answer: it takes up to so many bytes, it would block, or an error. */
  datatype Output = Room(n: nat) | NoRoom | Broken

  ghost predicate Sensible(i: Input, o: Output) {
    (i.Bytes? ==> i.bytes != []) && (o.Room? ==> o.n > 0)
  }

  /** As much of the bytes as there is space for. */
  function Fitting(bytes: seq<Byte>, space: nat): (r: seq<Byte>)
    ensures r <= bytes && (|r| == space || r == bytes) && |r| <= space
  {
    if |bytes| <= space then bytes else bytes[..space]
  }

  /** A direction as a value: what was read, what was written, and how it ended, if it has. */
  datatype Flow = Flow(taken: seq<Byte>, given: seq<Byte>, shut: bool, broken: bool) {
    predicate Ended() { shut || broken }
  }

  /** What one pass does to a direction that has not ended, with a buffer of `max` bytes. */
  ghost function Passed(d: Flow, max: nat, i: Input, o: Output): Flow
    requires d.given <= d.taken && |d.taken| - |d.given| <= max
  {
    if d.Ended() then d
    else
      var space := max - (|d.taken| - |d.given|);
      var taken := d.taken + (if i.Bytes? then Fitting(i.bytes, space) else []);
      var rest := taken[|d.given|..];
      if rest == [] then d.(shut := i.EndOfInput?)
      else match o
        case NoRoom => d.(taken := taken)
        case Broken => d.(taken := taken, broken := true)
        case Room(n) => d.(taken := taken, given := d.given + Fitting(rest, n))
  }

  /** Nothing is lost, made up or reordered, the buffer never holds more than it can, and a shutdown has all bytes written. */
  ghost predicate Conserved(d: Flow, max: nat) {
    d.given <= d.taken && |d.taken| - |d.given| <= max && (d.shut ==> d.given == d.taken)
  }

  lemma PassedConserved(d: Flow, max: nat, i: Input, o: Output)
    requires Conserved(d, max) && max > 0
    ensures Conserved(Passed(d, max, i, o), max)
    ensures d.taken <= Passed(d, max, i, o).taken && d.given <= Passed(d, max, i, o).given
  {
  }

  function Min(a: nat, b: nat): nat {
    if a <= b then a else b
  }

  /**
   A pass reads as much as is offered and fits, and then writes as much of what
   it has as the output takes, whatever the input answered. It shuts the
   output down exactly if the input has ended and nothing is left to write,
   and gives up exactly if there is something to write and that fails.
   */
  lemma PassedExactly(d: Flow, max: nat, i: Input, o: Output)
    requires Conserved(d, max) && max > 0 && !d.Ended() && Sensible(i, o)
    ensures
      var e := Passed(d, max, i, o);
      && e.taken == d.taken + (if i.Bytes? then i.bytes[..Min(|i.bytes|, max - (|d.taken| - |d.given|))] else [])
      && e.given == e.taken[..|d.given| + (if o.Room? then Min(o.n, |e.taken| - |d.given|) else 0)]
      && (e.shut <==> i.EndOfInput? && d.given == d.taken)
      && (e.broken <==> o.Broken? && e.taken != d.given)
  {
  }

  /**
   One direction with its history: the bytes read from its input, the bytes
   written to its output, whether its output was shut down, and whether
   writing failed.
   */
  class Direction {
    const buf: Buffer
    ghost var taken: seq<Byte>
    ghost var given: seq<Byte>
    ghost var shut: bool
    ghost var broken: bool

    constructor (maxSize: nat)
      requires maxSize > 0
      ensures Valid() && taken == given == [] && !shut && !broken
      ensures fresh(buf) && fresh(buf.data)
    {
      buf := new Buffer(maxSize);
      taken, given, shut, broken := [], [], false, false;
    }

    /** Nothing is lost, made up or reordered: what was read is what was written and then what is in the buffer. */
    ghost predicate Valid()
      reads this, buf, buf.data
    {
      && buf.Valid()
      && taken == given + buf.Contents()
      && (shut ==> given == taken)
    }

    ghost function Value(): Flow
      reads this
    {
      Flow(taken, given, shut, broken)
    }

    /** The first half of `task_io_splice`. */
    method Receive(i: Input) returns (res: int)
      requires Valid() && !shut && (i.Bytes? ==> i.bytes != [])
      modifies this`taken, buf, buf.data
      ensures Valid()
      ensures taken == old(taken) + (if i.Bytes? then Fitting(i.bytes, buf.data.Length - old(buf.useSize)) else [])
      ensures res == 1 ==> buf.Contents() != [] && (taken != old(taken) || old(buf.useSize) == buf.data.Length)
      ensures res == 0 ==> i.NoInput?
      ensures res == -1 ==> i.EndOfInput?
      ensures -1 <= res <= 1
    {
      res := 1;
      var iov := buf.Writing();
      if iov != [] {
        match i
        case NoInput => res := 0;
        case EndOfInput => res := -1;
        case Bytes(all) => Accept(iov, Fitting(all, buf.data.Length - buf.useSize));
      }
    }

    /** The bytes read join the contents. */
    method Accept(iov: seq<Span>, bytes: seq<Byte>)
      requires Valid() && !shut && |bytes| <= buf.data.Length - buf.useSize
      requires Covers(iov, Wrap(buf.rp, buf.useSize, buf.data.Length), buf.data.Length - buf.useSize, buf.data.Length)
      modifies this`taken, buf, buf.data
      ensures Valid() && taken == old(taken) + bytes && buf.Contents() == old(buf.Contents()) + bytes
    {
      buf.Fill(iov, bytes);
      buf.WriteFinish(|bytes|);
      taken := taken + bytes;
    }

    /** The second half: write what there is, or shut the output down if the input has ended. */
    method Send(o: Output, before: int) returns (res: int)
      requires Valid() && !shut && !broken && -1 <= before <= 1 && (o.Room? ==> o.n > 0)
      requires before == 1 ==> buf.Contents() != []
      modifies this`given, this`shut, this`broken, buf
      ensures Valid()
      ensures given == old(given) + (if o.Room? then Fitting(old(buf.Contents()), o.n) else [])
      ensures shut <==> before == -1 && old(buf.Contents()) == []
      ensures broken <==> o.Broken? && old(buf.Contents()) != []
      ensures res == if shut || broken then -1 else if given != old(given) then 1 else 0
    {
      res := before;
      var iov := buf.Reading();
      if iov != [] {
        match o
        case NoRoom => res := 0;
        case Broken =>
          res := -1;
          broken := true;
        case Room(n) =>
          var size := if n <= buf.useSize then n else buf.useSize;
          var bytes := buf.Drain(iov, size);
          res := 1;
          buf.ReadFinish(size);
          given := given + bytes;
      } else if res < 0 {
        shut := true;
      }
    }

    /**
     `task_io_splice`: 1 says that bytes were written, 0 that it has to wait, -1 that
     the direction has ended. It ends in a shutdown, with the input at its
     end and all bytes read written, or because writing failed.
     */
    method Step(i: Input, o: Output) returns (res: int)
      requires Valid() && !shut && !broken && Sensible(i, o)
      modifies this, buf, buf.data
      ensures Valid() && old(Conserved(Value(), buf.data.Length)) && Value() == Passed(old(Value()), buf.data.Length, i, o)
      ensures res == if shut || broken then -1 else if given != old(given) then 1 else 0
    {
      res := Receive(i);
      assert buf.Contents() == taken[|given|..];
      res := Send(o, res);
    }
  }

  datatype Pass = Pass(fIn: Input, fOut: Output, bIn: Input, bOut: Output, stop: bool)

  datatype Outcome = BothEnded | Stopped | StillRunning

  /** Bitwise and of two results that are 0 or -1. */
  function And(a: int, b: int): (r: int)
    requires -1 <= a <= 0 && -1 <= b <= 0
    ensures r == 0 <==> a == 0 || b == 0
  {
    if a == -1 then b else 0
  }

  ghost predicate Fits(d: Direction)
    reads d
  {
    d.buf.data.Length > 0 && Conserved(d.Value(), d.buf.data.Length)
  }

  /** A direction may be stepped exactly as long as it has not ended. */
  ghost predicate Going(d: Direction, res: int)
    reads d, d.buf, d.buf.data
  {
    d.Valid() && -1 <= res <= 1 && (if res >= 0 then !d.shut && !d.broken else d.shut || d.broken)
  }

  /** One direction's part of a pass: nothing once it has ended. */
  method Turn(d: Direction, before: int, i: Input, o: Output) returns (res: int)
    requires Going(d, before) && Sensible(i, o)
    modifies d, d.buf, d.buf.data
    ensures Going(d, res) && old(Fits(d)) && d.Value() == Passed(old(d.Value()), d.buf.data.Length, i, o)
  {
    res := before;
    if res >= 0 {
      res := d.Step(i, o);
    }
  }

  /** A direction after the first `n` passes of the script. */
  ghost function After(d: Flow, max: nat, script: seq<Pass>, forward: bool, n: nat): (r: Flow)
    requires n <= |script| && Conserved(d, max) && max > 0
    ensures Conserved(r, max)
  {
    if n == 0 then d
    else
      var e, p := After(d, max, script, forward, n - 1), script[n - 1];
      var i, o := if forward then p.fIn else p.bIn, if forward then p.fOut else p.bOut;
      PassedConserved(e, max, i, o);
      Passed(e, max, i, o)
  }

  /** The answers that a direction gets in a pass. */
  ghost function Ins(p: Pass, forward: bool): Input { if forward then p.fIn else p.bIn }

  ghost function Outs(p: Pass, forward: bool): Output { if forward then p.fOut else p.bOut }

  lemma {:induction false} Drains(d: Flow, max: nat, script: seq<Pass>, forward: bool, n: nat)
    requires n <= |script| && Conserved(d, max) && max > 0 && !d.Ended()
    requires forall k :: 0 <= k < n ==> Ins(script[k], forward).EndOfInput? && Outs(script[k], forward).Room? && Outs(script[k], forward).n > 0
    ensures
      var e := After(d, max, script, forward, n);
      && e.taken == d.taken && !e.broken
      && (e.shut || (|e.taken| - |e.given| <= |d.taken| - |d.given| - n && n <= |d.taken| - |d.given|))
  {
    if n > 0 {
      Drains(d, max, script, forward, n - 1);
      var e, p := After(d, max, script, forward, n - 1), script[n - 1];
      if !e.Ended() {
        PassedExactly(e, max, Ins(p, forward), Outs(p, forward));
      }
    }
  }

  /**
   Once its input has ended, a direction whose output takes at least a byte
   each time has everything written and its output shut down after one pass
   more than there are bytes in its buffer.
   */
  lemma DrainsAndShuts(d: Flow, max: nat, script: seq<Pass>, forward: bool, n: nat)
    requires n <= |script| && Conserved(d, max) && max > 0 && !d.Ended() && n > |d.taken| - |d.given|
    requires forall k :: 0 <= k < n ==> Ins(script[k], forward).EndOfInput? && Outs(script[k], forward).Room? && Outs(script[k], forward).n > 0
    ensures var e := After(d, max, script, forward, n); e.shut && e.given == e.taken == d.taken
  {
    Drains(d, max, script, forward, n);
  }

  /**
   The loop of `hev_task_io_splice`, for as long as the script goes; `stop` is
   the answer of a yielder, and `n` counts the passes made. Each direction is
   where the passes bring it; the loop ends by itself exactly when both have
   ended, each shut down with everything written or not to be written any more.
   */
  method Run(f: Direction, b: Direction, script: seq<Pass>) returns (outcome: Outcome, n: nat)
    requires f != b && f.buf != b.buf && f.buf.data != b.buf.data
    requires f.Valid() && b.Valid() && !f.shut && !f.broken && !b.shut && !b.broken
    requires forall k :: 0 <= k < |script| ==> Sensible(script[k].fIn, script[k].fOut) && Sensible(script[k].bIn, script[k].bOut)
    modifies f, b, f.buf, b.buf, f.buf.data, b.buf.data
    ensures f.Valid() && b.Valid() && n <= |script| && old(Fits(f)) && old(Fits(b))
    ensures f.Value() == After(old(f.Value()), f.buf.data.Length, script, true, n)
    ensures b.Value() == After(old(b.Value()), b.buf.data.Length, script, false, n)
    ensures outcome.BothEnded? <==> f.Value().Ended() && b.Value().Ended()
    ensures outcome.Stopped? ==> n > 0 && script[n - 1].stop
    ensures outcome.StillRunning? ==> n == |script|
  {
    hide Passed, Conserved;
    var resF, resB := 1, 1;
    n := 0;
    while n < |script|
      invariant n <= |script| && old(Fits(f)) && old(Fits(b))
      invariant Going(f, resF) && Going(b, resB) && (resF >= 0 || resB >= 0)
      invariant f.Value() == After(old(f.Value()), f.buf.data.Length, script, true, n)
      invariant b.Value() == After(old(b.Value()), b.buf.data.Length, script, false, n)
    {
      var p := script[n];
      resF := Turn(f, resF, p.fIn, p.fOut);
      resB := Turn(b, resB, p.bIn, p.bOut);
      n := n + 1;
      if resF <= 0 && resB <= 0 && And(resF, resB) != 0 {
        return BothEnded, n;
      }
      if p.stop {
        return Stopped, n;
      }
    }
    outcome := StillRunning;
  }
}
