/** Lists kept newest first, and what the ways in which they change do to that order. */
module Recency {
  import opened Links
  import opened RbShape

  /** From the front, each element has a later stamp than the ones behind it, and all are before `clock`. */
  ghost predicate NewestFirst<T>(list: seq<T>, since: map<T, nat>, clock: nat) {
    && (forall t :: t in list ==> t in since && since[t] < clock)
    && (forall i, j :: 0 <= i < j < |list| ==> since[list[i]] > since[list[j]])
  }

  lemma NewestNoRepeat<T>(s: seq<T>, since: map<T, nat>, clock: nat)
    requires NewestFirst(s, since, clock)
    ensures NoRepeat(s)
  {
  }

  lemma {:induction false} WithoutOne<T>(s: seq<T>, t: T, since: map<T, nat>, clock: nat)
    requires NewestFirst(s, since, clock)
    ensures NewestFirst(Without(s, t), since, clock) && t !in Without(s, t)
    ensures forall u :: u in s && u != t ==> u in Without(s, t)
    ensures forall u :: u in Without(s, t) ==> u in s
  {
    if s != [] {
      NewestNoRepeat(s, since, clock);
      PoppedFirst(s);
      assert forall u :: u in s[1..] ==> since[u] < since[s[0]];
      WithoutOne(s[1..], t, since, clock);
      Pushed(Without(s[1..], t), s[0]);
    }
  }

  lemma Shifted<T>(l: seq<T>, f: map<T, nat>, g: map<T, nat>, n: nat, m: nat)
    requires NewestFirst(l, f, n) && n <= m && forall t :: t in l ==> t in g && g[t] == f[t]
    ensures NewestFirst(l, g, m)
  {
  }

  lemma PutInFront<T>(l: seq<T>, t: T, f: map<T, nat>, n: nat)
    requires NewestFirst(l, f, n) && t in f && f[t] == n
    ensures NewestFirst([t] + l, f, n + 1)
  {
  }

  lemma Shortened<T>(l: seq<T>, f: map<T, nat>, n: nat, t: T)
    requires NewestFirst(l, f, n)
    ensures l != [] ==> NewestFirst(l[1..], f, n)
    ensures NewestFirst(Without(l, t), f, n) && NewestFirst([], f, n)
    ensures forall u :: u in Without(l, t) ==> u in l
  {
    WithoutOne(l, t, f, n);
  }

  /** From the front, each element has an earlier stamp than the ones behind it, and all are before `clock`. */
  ghost predicate OldestFirst<T>(list: seq<T>, since: map<T, nat>, clock: nat) {
    && (forall t :: t in list ==> t in since && since[t] < clock)
    && (forall i, j :: 0 <= i < j < |list| ==> since[list[i]] < since[list[j]])
  }

  lemma PutBehind<T>(l: seq<T>, t: T, f: map<T, nat>, n: nat)
    requires OldestFirst(l, f, n) && t in f && f[t] == n
    ensures OldestFirst(l + [t], f, n + 1)
  {
  }

  lemma PutBefore<T>(l: seq<T>, t: T, f: map<T, nat>, n: nat)
    requires OldestFirst(l, f, n) && t in f && f[t] < n && forall u :: u in l ==> f[t] < f[u]
    ensures OldestFirst([t] + l, f, n)
  {
  }

  lemma ShiftedOldest<T>(l: seq<T>, f: map<T, nat>, g: map<T, nat>, n: nat, m: nat)
    requires OldestFirst(l, f, n) && n <= m && forall t :: t in l ==> t in g && g[t] == f[t]
    ensures OldestFirst(l, g, m)
  {
  }

  lemma {:induction false} WithoutOldest<T>(s: seq<T>, t: T, since: map<T, nat>, clock: nat)
    requires OldestFirst(s, since, clock)
    ensures OldestFirst(Without(s, t), since, clock)
    ensures forall u :: u in Without(s, t) ==> u in s
  {
    if s != [] {
      assert forall u :: u in s[1..] ==> since[s[0]] < since[u];
      WithoutOldest(s[1..], t, since, clock);
      PutBefore(Without(s[1..], t), s[0], since, clock);
    }
  }
}
