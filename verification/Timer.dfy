/** The timespec arithmetic of `hev-task-timer.c`, against time as a number of nanoseconds. */
module Timer {

  datatype Timespec = Timespec(sec: int, nsec: int)

  const GIGA := 1000000000
  const MEGA := 1000000

  predicate Normal(t: Timespec) {
    0 <= t.nsec < GIGA
  }

  function Ns(t: Timespec): int {
    t.sec * GIGA + t.nsec
  }

  /** The unsigned and the signed reading of a 32-bit word. */
  function U32(x: int): nat {
    x % 0x1_0000_0000
  }

  function S32(x: int): int {
    if U32(x) < 0x8000_0000 then U32(x) else U32(x) - 0x1_0000_0000
  }

  /** `hev_task_timer_cmp` */
  function Cmp(a: Timespec, b: Timespec): int {
    if a.sec < b.sec then -1
    else if a.sec > b.sec then 1
    else if a.nsec < b.nsec then -1
    else if a.nsec > b.nsec then 1
    else 0
  }

  /** `hev_task_timer_get_expire` */
  function AddMs(t: Timespec, ms: nat): Timespec {
    var s, n := t.sec + ms / 1000, t.nsec + (ms % 1000) * MEGA;
    if n >= GIGA then Timespec(s + 1, n - GIGA) else Timespec(s, n)
  }

  /** `hev_task_timer_add_ns` */
  function AddNs(t: Timespec, ns: nat): Timespec {
    var s, n := t.sec + ns / GIGA, t.nsec + ns % GIGA;
    if n >= GIGA then Timespec(s + 1, n - GIGA) else Timespec(s, n)
  }

  /** `hev_task_timer_get_time`: the remaining milliseconds as an `unsigned int` */
  function Remaining(curr: Timespec, expire: Timespec): nat {
    var s, n := expire.sec - curr.sec, expire.nsec - curr.nsec;
    var sec, nsec := if n < 0 then s - 1 else s, if n < 0 then n + GIGA else n;
    if sec < 0 then 0 else U32(sec * 1000 + (nsec + 999999) / MEGA)
  }

  /** `hev_task_timer_get_timeout` with a timer pending: the result goes through `int`. */
  function Timeout(curr: Timespec, expire: Timespec): int {
    S32(Remaining(curr, expire))
  }

  /** Nanoseconds in whole milliseconds, rounded up; none if there are none left. */
  function CeilMs(ns: int): nat {
    if ns <= 0 then 0 else (ns + 999999) / MEGA
  }

  /** The comparison of normal timespecs is the order of time. */
  lemma CmpIsOrder(a: Timespec, b: Timespec)
    requires Normal(a) && Normal(b)
    ensures Cmp(a, b) < 0 <==> Ns(a) < Ns(b)
    ensures Cmp(a, b) > 0 <==> Ns(a) > Ns(b)
    ensures Cmp(a, b) == 0 <==> a == b
  {
  }

  lemma AddMsExact(t: Timespec, ms: nat)
    requires Normal(t)
    ensures Normal(AddMs(t, ms)) && Ns(AddMs(t, ms)) == Ns(t) + ms * MEGA
  {
    assert ms == ms / 1000 * 1000 + ms % 1000;
  }

  lemma AddNsExact(t: Timespec, ns: nat)
    requires Normal(t)
    ensures Normal(AddNs(t, ns)) && Ns(AddNs(t, ns)) == Ns(t) + ns
  {
    assert ns == ns / GIGA * GIGA + ns % GIGA;
  }

  /** The remaining time, rounded up to milliseconds and cut to 32 bits. */
  lemma RemainingExact(curr: Timespec, expire: Timespec)
    requires Normal(curr) && Normal(expire)
    ensures Remaining(curr, expire) == U32(CeilMs(Ns(expire) - Ns(curr)))
  {
    var s, n := expire.sec - curr.sec, expire.nsec - curr.nsec;
    var sec, nsec := if n < 0 then s - 1 else s, if n < 0 then n + GIGA else n;
    var d := Ns(expire) - Ns(curr);
    assert d == sec * GIGA + nsec && 0 <= nsec < GIGA;
    if 0 <= sec {
      assert d + 999999 == (sec * 1000) * MEGA + (nsec + 999999);
      DivShift(sec * 1000, nsec + 999999);
    }
  }

  lemma DivShift(q: nat, r: nat)
    ensures (q * MEGA + r) / MEGA == q + r / MEGA
  {
  }

  lemma CeilMsBounds(ns: int)
    ensures ns <= CeilMs(ns) * MEGA && (0 < ns ==> CeilMs(ns) * MEGA < ns + MEGA)
    ensures CeilMs(ns) == 0 <==> ns <= 0
  {
  }

  lemma CeilMsWhole(ms: nat, late: nat)
    ensures CeilMs(ms * MEGA - late) <= ms
  {
    CeilMsBounds(ms * MEGA - late);
  }

  /**
   `hev_task_sleep`: with a clock that does not run backwards, what is left
   never exceeds what was asked for, and it is 0 exactly when the whole time
   has passed. This holds for every `unsigned int`.
   */
  lemma SleepReturnsZeroWhenDone(start: Timespec, ms: nat, curr: Timespec)
    requires Normal(start) && Normal(curr) && Ns(start) <= Ns(curr) && ms < 0x1_0000_0000
    ensures Remaining(curr, AddMs(start, ms)) <= ms
    ensures Remaining(curr, AddMs(start, ms)) == 0 <==> Ns(start) + ms * MEGA <= Ns(curr)
  {
    AddMsExact(start, ms);
    RemainingExact(curr, AddMs(start, ms));
    var left := Ns(start) + ms * MEGA - Ns(curr);
    CeilMsWhole(ms, Ns(curr) - Ns(start));
    CeilMsBounds(left);
  }

  /**
   A blocking poll whose timeout was computed from a clock reading `cached`,
   however old, and which starts at `now`, does not end before the expiry.
   */
  lemma PollNotBeforeExpiry(cached: Timespec, now: Timespec, expire: Timespec)
    requires Normal(cached) && Normal(now) && Normal(expire) && Ns(cached) <= Ns(now)
    requires CeilMs(Ns(expire) - Ns(cached)) < 0x8000_0000
    ensures 0 <= Timeout(cached, expire) && Ns(expire) <= Ns(now) + Timeout(cached, expire) * MEGA
  {
    RemainingExact(cached, expire);
    CeilMsBounds(Ns(expire) - Ns(cached));
  }

  /**
   The timeout has a length, instead of the negative value that means waiting
   without end, exactly when bit 31 of the remaining milliseconds is clear;
   for sleeps within 32 bits that is: less than 2^31 ms are left.
   */
  lemma TimeoutFinite(curr: Timespec, expire: Timespec)
    requires Normal(curr) && Normal(expire) && CeilMs(Ns(expire) - Ns(curr)) < 0x1_0000_0000
    ensures 0 <= Timeout(curr, expire) <==> CeilMs(Ns(expire) - Ns(curr)) < 0x8000_0000
    ensures 0 <= Timeout(curr, expire) ==> Timeout(curr, expire) == CeilMs(Ns(expire) - Ns(curr))
  {
    RemainingExact(curr, expire);
  }

  /** A sleep of 2^31 ms as the only timer: the poll would wait without end. */
  lemma LongSleepNeverPolled()
    ensures Timeout(Timespec(0, 0), AddMs(Timespec(0, 0), 0x8000_0000)) < 0
  {
    AddMsExact(Timespec(0, 0), 0x8000_0000);
    TimeoutFinite(Timespec(0, 0), AddMs(Timespec(0, 0), 0x8000_0000));
  }
}
