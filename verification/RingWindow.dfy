/**
 A queue laid out in a ring of cells: `Window(s, rd, n)` reads `n` cells from
 `rd` on, around the end. The channel ring and the circular buffer of the
 splice both take from its front and add at its back.
 */
module RingWindow {
  /** The cell `i` places after `rd`. */
  function Wrap(rd: nat, i: nat, max: nat): (r: nat)
    requires rd < max && i <= max
    ensures r < max
  {
    if rd + i < max then rd + i else rd + i - max
  }

  lemma WrapIsMod(rd: nat, i: nat, max: nat)
    requires rd < max && i <= max
    ensures (rd + i) % max == Wrap(rd, i, max)
  {
    if rd + i >= max {
      assert rd + i == max * 1 + (rd + i - max);
    }
  }

  ghost function Window<A>(s: seq<A>, rd: nat, n: nat): (q: seq<A>)
    requires rd < |s| && n <= |s|
    ensures |q| == n
  {
    seq(n, i requires 0 <= i < n => s[Wrap(rd, i, |s|)])
  }

  /** Moving the start by `k` takes the first `k` off. */
  lemma WindowDrop<A>(s: seq<A>, rd: nat, n: nat, k: nat)
    requires rd < |s| && k <= n <= |s|
    ensures Window(s, Wrap(rd, k, |s|), n - k) == Window(s, rd, n)[k..]
    ensures Wrap(Wrap(rd, k, |s|), n - k, |s|) == Wrap(rd, n, |s|)
  {
  }

  /** Cells filled after the window, the window itself untouched, put their contents at its end. */
  lemma WindowGrow<A>(s: seq<A>, s': seq<A>, rd: nat, n: nat, xs: seq<A>)
    requires |s'| == |s| && rd < |s| && n + |xs| <= |s|
    requires forall i {:trigger s'[Wrap(rd, i, |s|)]} :: 0 <= i < n ==> s'[Wrap(rd, i, |s|)] == s[Wrap(rd, i, |s|)]
    requires forall j {:trigger xs[j]} :: 0 <= j < |xs| ==> s'[Wrap(rd, n + j, |s|)] == xs[j]
    ensures Window(s', rd, n + |xs|) == Window(s, rd, n) + xs
  {
    var w := Window(s', rd, n + |xs|);
    forall i | 0 <= i < |w|
      ensures w[i] == (Window(s, rd, n) + xs)[i]
    {
      if i >= n {
        assert w[i] == s'[Wrap(rd, n + (i - n), |s|)] == xs[i - n];
      }
    }
  }

  /** One cell. */
  lemma WindowPush<A>(s: seq<A>, rd: nat, n: nat, x: A)
    requires rd < |s| && n < |s|
    ensures Window(s[Wrap(rd, n, |s|) := x], rd, n + 1) == Window(s, rd, n) + [x]
    ensures n + 1 <= |s| && Wrap(Wrap(rd, n, |s|), 1, |s|) == Wrap(rd, n + 1, |s|)
  {
    WindowGrow(s, s[Wrap(rd, n, |s|) := x], rd, n, [x]);
  }
}
