/**
 The `MSG_WAITALL` loops of `hev_task_io_socket_recvmsg` and `_sendmsg`: after
 a partial transfer the local copy of the vector is trimmed in place, and the
 call is repeated on what is left.
 */
module Iovec {
  import opened Common

  /** The addresses of a span, in order. */
  ghost function Addresses(v: Span): (r: seq<nat>)
    ensures |r| == v.len
  {
    seq(v.len, i requires 0 <= i < v.len => v.base + i)
  }

  /** All the addresses a vector stands for, in order. */
  ghost function Flat(iov: seq<Span>): seq<nat> {
    if iov == [] then [] else Addresses(iov[0]) + Flat(iov[1..])
  }

  /** A span cut to what is behind its first `n` bytes. */
  function Behind(v: Span, n: nat): (r: Span)
    requires n <= v.len
    ensures Addresses(r) == Addresses(v)[n..]
  {
    Span(v.base + n, v.len - n)
  }

  /** Adding up the lengths while copying the vector. */
  method Total(iov: seq<Span>) returns (len: nat)
    ensures len == |Flat(iov)|
  {
    len := 0;
    for i := 0 to |iov|
      invariant len + |Flat(iov[i..])| == |Flat(iov)|
    {
      assert iov[i..][1..] == iov[i + 1..];
      len := len + iov[i].len;
    }
  }

  lemma SkipEntry(v: seq<Span>, n: nat)
    requires v != [] && v[0].len <= n < |Flat(v)|
    ensures n - v[0].len < |Flat(v[1..])| && Flat(v)[n..] == Flat(v[1..])[n - v[0].len..]
  {
  }

  lemma CutEntry(v: seq<Span>, n: nat)
    requires v != [] && n < v[0].len
    ensures n <= |Flat(v)| && Flat([Behind(v[0], n)] + v[1..]) == Flat(v)[n..]
  {
    assert ([Behind(v[0], n)] + v[1..])[1..] == v[1..];
  }

  /**
   The trimming, on the entries from `first` on: what they stand for loses
   its first `s` bytes, and an entry is left, empty entries or not.
   */
  method Trim(iov: array<Span>, first: nat, s: nat) returns (next: nat)
    requires first <= iov.Length && s < |Flat(iov[first..])|
    modifies iov
    ensures first <= next < iov.Length
    ensures Flat(iov[next..]) == old(Flat(iov[first..]))[s..]
  {
    var left: nat := s;
    next := first;
    while next < iov.Length
      invariant first <= next <= iov.Length && iov[..] == old(iov[..])
      invariant left < |Flat(iov[next..])| && iov[next..] != []
      invariant Flat(iov[next..])[left..] == old(Flat(iov[first..]))[s..]
    {
      hide Flat;
      ghost var v := iov[next..];
      assert v[1..] == iov[next + 1..];
      if left < iov[next].len {
        CutEntry(v, left);
        iov[next] := Behind(iov[next], left);
        assert iov[next..] == [Behind(v[0], left)] + v[1..];
        return;
      }
      SkipEntry(v, left);
      NonEmpty(v[1..]);
      left := left - iov[next].len;
      next := next + 1;
    }
    assert false;
  }

  lemma NonEmpty(v: seq<Span>)
    ensures |Flat(v)| > 0 ==> v != []
  {
  }

  /** What one system call answers: so many bytes moved, would block (and whether a yielder then stops), or the end or an error. */
  datatype Answer = Moved(n: nat) | Again(stop: bool) | Failed(s: int)

  ghost predicate Plausible(a: Answer) {
    (a.Moved? ==> a.n > 0) && (a.Failed? ==> a.s <= 0)
  }

  /** The value returned, with `size` bytes of `len` moved so far: none as long as the answers ask for another call. */
  ghost function Returned(len: nat, size: nat, answers: seq<Answer>): Option<int>
    requires size <= len
    decreases |answers|
  {
    if answers == [] then None
    else match answers[0]
      case Again(stop) => if stop then Some(if size > 0 then size else -2) else Returned(len, size, answers[1..])
      case Failed(s) => Some(if size > 0 then size else s)
      case Moved(n) => if size + n >= len then Some(len) else Returned(len, size + n, answers[1..])
  }

  /** The bytes that the answers say were moved. */
  ghost function Sum(answers: seq<Answer>): nat {
    if answers == [] then 0 else Sum(answers[..|answers| - 1]) + (if answers[|answers| - 1].Moved? then answers[|answers| - 1].n else 0)
  }

  /** The k-th answer ends the call: a failure, a yielder that stops, or the last of the bytes. */
  ghost predicate Final(len: nat, answers: seq<Answer>, k: nat)
    requires k < |answers|
  {
    answers[k].Failed? || (answers[k].Again? && answers[k].stop) || (answers[k].Moved? && Sum(answers[..k + 1]) >= len)
  }

  /** The k-th answer is the first to end the call. */
  ghost predicate FirstFinal(len: nat, answers: seq<Answer>, k: nat) {
    k < |answers| && Final(len, answers, k) && forall i :: 0 <= i < k ==> !Final(len, answers, i)
  }

  /** The call goes on through the first `k` answers. */
  lemma {:induction false} ReturnedLater(len: nat, answers: seq<Answer>, k: nat)
    requires k <= |answers| && forall i :: 0 <= i < k ==> !Final(len, answers, i)
    ensures Sum(answers[..k]) == 0 || Sum(answers[..k]) < len
    ensures Sum(answers[..k]) <= len ==> Returned(len, 0, answers) == Returned(len, Sum(answers[..k]), answers[k..])
    ensures Sum(answers[..k]) <= len
  {
    if k > 0 {
      ReturnedLater(len, answers, k - 1);
      assert answers[..k][..k - 1] == answers[..k - 1];
      assert answers[k - 1..][1..] == answers[k..];
      assert !Final(len, answers, k - 1);
    } else {
      assert answers[0..] == answers;
    }
  }

  /**
   What the call returns, said without its loop: with a first answer that ends
   it, the full length if that brought the last bytes, else what had been
   moved, else the failure's own value or -2; without one it has not returned.
   */
  lemma ReturnedExactly(len: nat, answers: seq<Answer>, k: nat)
    ensures (forall i :: 0 <= i < |answers| ==> !Final(len, answers, i)) ==> Returned(len, 0, answers) == None
    ensures FirstFinal(len, answers, k) ==>
      Returned(len, 0, answers) == Some(
        if answers[k].Moved? then len
        else if Sum(answers[..k]) > 0 then Sum(answers[..k])
        else if answers[k].Failed? then answers[k].s else -2)
  {
    if forall i :: 0 <= i < |answers| ==> !Final(len, answers, i) {
      ReturnedLater(len, answers, |answers|);
      assert answers[|answers|..] == [];
    }
    if FirstFinal(len, answers, k) {
      ReturnedLater(len, answers, k);
      assert answers[k..][0] == answers[k];
      assert answers[..k + 1][..k] == answers[..k];
    }
  }

  /** Where the call ends, if it does. */
  lemma FindFinal(len: nat, answers: seq<Answer>, n: nat) returns (k: nat)
    requires n < |answers| && Final(len, answers, n)
    ensures k <= n && FirstFinal(len, answers, k)
  {
    k := 0;
    while !Final(len, answers, k)
      invariant k <= n && forall i :: 0 <= i < k ==> !Final(len, answers, i)
      decreases n - k
    {
      k := k + 1;
    }
  }

  /**
   With no failure and no stopping yielder the whole length is returned once the
   answers have moved it, however often the call would have blocked in between.
   */
  lemma FullLength(len: nat, answers: seq<Answer>)
    requires len > 0 && Sum(answers) >= len
    requires forall a :: a in answers ==> !a.Failed? && !(a.Again? && a.stop)
    ensures Returned(len, 0, answers) == Some(len)
  {
    assert answers[..|answers|] == answers;
    if n :| 0 <= n < |answers| && Final(len, answers, n) {
      var k := FindFinal(len, answers, n);
      assert answers[k] in answers;
      ReturnedExactly(len, answers, k);
    } else {
      ReturnedLater(len, answers, |answers|);
    }
  }

  /** A positive result short of the length has a failure or a stopping yielder behind it; so has any result that is not positive. */
  lemma ShortNeedsReason(len: nat, answers: seq<Answer>)
    requires len > 0 && Returned(len, 0, answers).Some? && Returned(len, 0, answers).value != len
    ensures exists k :: 0 <= k < |answers| && (answers[k].Failed? || (answers[k].Again? && answers[k].stop))
  {
    if n :| 0 <= n < |answers| && Final(len, answers, n) {
      var k := FindFinal(len, answers, n);
      ReturnedExactly(len, answers, k);
    } else {
      ReturnedExactly(len, answers, 0);
    }
  }

  /**
   The loop, over the answers of the system; a call moves no more than the
   vector holds, in its order. `moved` is the history of the addresses moved.
   What has been moved is always the first bytes of the vector as the caller
   gave it, each once and in order: as many as a positive result says, and
   all of them when that is the full length.
   */
  method WaitAll(given: seq<Span>, answers: seq<Answer>) returns (result: Option<int>, ghost moved: seq<nat>)
    requires forall a :: a in answers ==> Plausible(a)
    ensures result == Returned(|Flat(given)|, 0, answers)
    ensures moved <= Flat(given)
    ensures result.Some? ==> |moved| == if result.value > 0 then result.value else 0
    ensures result == Some(|Flat(given)|) ==> moved == Flat(given)
  {
    var iov := new Span[|given|](i requires 0 <= i < |given| => given[i]);
    assert iov[..] == given;
    var len := Total(given);
    var size, first := 0, 0;
    moved := [];
    ghost var all := Flat(given);
    assert iov[0..] == given;
    for k := 0 to |answers|
      invariant size <= len && first <= iov.Length && moved == all[..size] && len == |all|
      invariant Flat(iov[first..]) == all[size..]
      invariant size < len || size == 0
      invariant Returned(len, 0, answers) == Returned(len, size, answers[k..])
    {
      assert answers[k] in answers;
      assert answers[k..][1..] == answers[k + 1..];
      match answers[k]
      case Again(stop) =>
        if stop {
          return Some(if size > 0 then size else -2), moved;
        }
      case Failed(s) =>
        return Some(if size > 0 then size else s), moved;
      case Moved(n) =>
        var s := if n <= len - size then n else len - size;
        moved := moved + Flat(iov[first..])[..s];
        size := size + s;
        if size >= len {
          return Some(size), moved;
        }
        first := Trim(iov, first, s);
    }
    return None, moved;
  }
}
