/**
 Doubly linked lists on values: which cells a sequence of nodes needs, and
 what the three pointer surgeries of the runtime (at the front, at the back,
 in the middle) do to them.
 */
module Links {
  import opened RbShape

  datatype Ref<N> = Null | To(node: N)

  datatype Link<N> = Link(prev: Ref<N>, next: Ref<N>)

  type Heap<N> = map<N, Link<N>>

  ghost function At<N>(items: seq<N>, i: int): Ref<N> {
    if 0 <= i < |items| then To(items[i]) else Null
  }

  /** The cell of the item at `i` points to the items before and after it. */
  ghost predicate Fits<N>(h: Heap<N>, items: seq<N>, i: nat)
    requires i < |items|
  {
    items[i] in h && h[items[i]] == Link(At(items, i - 1), At(items, i + 1))
  }

  /** The cells link the items up, in both directions, in this order. */
  ghost predicate Linked<N>(h: Heap<N>, items: seq<N>) {
    && NoRepeat(items)
    && (forall n :: n in items ==> n in h)
    && (forall i :: 0 <= i < |items| ==> Fits(h, items, i))
  }

  ghost function SetNext<N>(h: Heap<N>, at: Ref<N>, v: Ref<N>): Heap<N> {
    if at.To? && at.node in h then h[at.node := h[at.node].(next := v)] else h
  }

  ghost function SetPrev<N>(h: Heap<N>, at: Ref<N>, v: Ref<N>): Heap<N> {
    if at.To? && at.node in h then h[at.node := h[at.node].(prev := v)] else h
  }

  /** A node leaves the list: its neighbours are tied to each other. */
  ghost function Bypassed<N>(h: Heap<N>, n: N): Heap<N>
    requires n in h
  {
    SetPrev(SetNext(h, h[n].prev, h[n].next), h[n].next, h[n].prev)
  }

  /** A node comes before the first one. */
  ghost function Fronted<N>(h: Heap<N>, first: Ref<N>, n: N): Heap<N> {
    SetPrev(h, first, To(n))[n := Link(Null, first)]
  }

  /** A node comes after the last one. */
  ghost function Backed<N>(h: Heap<N>, last: Ref<N>, n: N): Heap<N> {
    SetNext(h, last, To(n))[n := Link(last, Null)]
  }

  lemma Pushed<N>(s: seq<N>, n: N)
    ensures forall u :: u in [n] + s <==> u == n || u in s
    ensures NoRepeat(s) && n !in s ==> NoRepeat([n] + s)
  {
  }

  lemma PoppedFirst<N>(s: seq<N>)
    requires NoRepeat(s) && s != []
    ensures NoRepeat(s[1..]) && s[0] !in s[1..]
    ensures forall u :: u in s <==> u == s[0] || u in s[1..]
  {
  }

  lemma {:induction false} WithoutMembers<N>(list: seq<N>, c: N)
    requires NoRepeat(list)
    ensures NoRepeat(Without(list, c))
    ensures forall d :: d in Without(list, c) <==> d != c && d in list
  {
    if list != [] {
      PoppedFirst(list);
      WithoutMembers(list[1..], c);
      if list[0] != c {
        Pushed(Without(list[1..], c), list[0]);
      }
    }
  }

  ghost function Members<N>(s: seq<N>): set<N> {
    set n | n in s
  }

  lemma MembersPushed<N>(s: seq<N>, n: N)
    ensures Members([n] + s) == Members(s) + {n} && Members(s + [n]) == Members(s) + {n}
    ensures n in Members(s) <==> n in s
  {
  }

  lemma FrontedLinked<N>(h: Heap<N>, items: seq<N>, n: N)
    requires Linked(h, items) && n !in items
    ensures Linked(Fronted(h, At(items, 0), n), [n] + items)
  {
    var h', s := Fronted(h, At(items, 0), n), [n] + items;
    forall i | 0 <= i < |s|
      ensures s[i] in h' && Fits(h', s, i)
    {
      if i > 0 {
        assert Fits(h, items, i - 1);
      }
    }
  }

  lemma BackedLinked<N>(h: Heap<N>, items: seq<N>, n: N)
    requires Linked(h, items) && n !in items
    ensures Linked(Backed(h, At(items, |items| - 1), n), items + [n])
  {
    var h', s := Backed(h, At(items, |items| - 1), n), items + [n];
    forall i | 0 <= i < |s|
      ensures s[i] in h' && Fits(h', s, i)
    {
      if i < |items| {
        assert Fits(h, items, i);
      }
    }
  }

  lemma BypassedAt<N>(h: Heap<N>, items: seq<N>, k: nat, j: nat)
    requires Linked(h, items) && k < |items| && j < |items| && j != k
    ensures items[j] in Bypassed(h, items[k])
    ensures Bypassed(h, items[k])[items[j]] ==
            Link(At(items, if j == k + 1 then k - 1 else j - 1), At(items, if j + 1 == k then k + 1 else j + 1))
  {
    assert Fits(h, items, j) && Fits(h, items, k);
    assert k > 0 ==> Fits(h, items, k - 1);
    assert k + 1 < |items| ==> Fits(h, items, k + 1);
  }

  /** The items but the one at `k`. */
  ghost function Cut<N>(items: seq<N>, k: nat): (r: seq<N>)
    requires k < |items|
    ensures |r| == |items| - 1
  {
    seq(|items| - 1, i requires 0 <= i < |items| - 1 => if i < k then items[i] else items[i + 1])
  }

  lemma {:induction false} CutWithout<N>(items: seq<N>, k: nat)
    requires NoRepeat(items) && k < |items|
    ensures Without(items, items[k]) == Cut(items, k)
  {
    if k == 0 {
      assert Cut(items, 0) == items[1..];
    } else {
      CutWithout(items[1..], k - 1);
      assert items[0] != items[k];
      assert Cut(items, k) == [items[0]] + Cut(items[1..], k - 1);
    }
  }

  lemma CutMembers<N>(items: seq<N>, k: nat)
    requires NoRepeat(items) && k < |items|
    ensures Members(Cut(items, k)) == Members(items) - {items[k]}
  {
    forall n | n in items && n != items[k]
      ensures n in Cut(items, k)
    {
      var i :| 0 <= i < |items| && items[i] == n;
      assert n == Cut(items, k)[if i < k then i else i - 1];
    }
  }

  lemma BypassedLinked<N>(h: Heap<N>, items: seq<N>, k: nat)
    requires Linked(h, items) && k < |items|
    ensures Linked(Bypassed(h, items[k]), Cut(items, k))
  {
    hide Bypassed;
    var h', s := Bypassed(h, items[k]), Cut(items, k);
    forall i | 0 <= i < |s|
      ensures s[i] in h' && Fits(h', s, i)
    {
      BypassedAt(h, items, k, if i < k then i else i + 1);
    }
  }

  /** The first node leaves. */
  lemma PoppedLinked<N>(h: Heap<N>, items: seq<N>)
    requires Linked(h, items) && items != []
    ensures Linked(SetPrev(h, At(items, 1), Null), items[1..])
    ensures At(items[1..], 0) == At(items, 1) && Members(items[1..]) == Members(items) - {items[0]}
    ensures items[0] in Members(items) && forall n :: n in items[1..] ==> n in Members(items) - {items[0]}
  {
    var h', s := SetPrev(h, At(items, 1), Null), items[1..];
    PoppedFirst(items);
    forall i | 0 <= i < |s|
      ensures s[i] in h' && Fits(h', s, i)
    {
      assert Fits(h, items, i + 1);
    }
  }

  /** The cell of one item, and that it is no other item. */
  lemma LinkedAt<N>(h: Heap<N>, items: seq<N>, k: nat)
    requires Linked(h, items) && k < |items|
    ensures items[k] in h && h[items[k]] == Link(At(items, k - 1), At(items, k + 1))
    ensures forall i :: 0 <= i < |items| && i != k ==> items[i] != items[k]
  {
    assert Fits(h, items, k);
  }

  lemma Nothing<N>(h: Heap<N>)
    ensures Linked(h, [])
  {
  }

  lemma AllMembers<N>(items: seq<N>)
    ensures forall i :: 0 <= i < |items| ==> items[i] in Members(items)
  {
  }

  lemma Unrepeated<N>(h: Heap<N>, items: seq<N>)
    requires Linked(h, items)
    ensures NoRepeat(items)
  {
  }

  /** A list depends on the cells of its own nodes only. */
  lemma LinkedElsewhere<N>(h: Heap<N>, h': Heap<N>, items: seq<N>)
    requires Linked(h, items)
    requires forall n :: n in items ==> n in h' && h'[n] == h[n]
    ensures Linked(h', items)
  {
    forall i | 0 <= i < |items|
      ensures Fits(h', items, i)
    {
      assert Fits(h, items, i);
    }
  }

  lemma {:induction false} WithoutNone<N>(s: seq<N>, n: N)
    requires n !in s
    ensures Without(s, n) == s
  {
    if s != [] {
      WithoutNone(s[1..], n);
    }
  }
}
