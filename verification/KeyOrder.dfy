/** Sequences kept in key order, equal keys in the order of insertion: what the run queue and the timer queue are. */
module KeyOrder {
  import opened RbShape

  type Keys<T> = map<T, int>

  ghost function At<T>(k: Keys<T>, t: T): int {
    if t in k then k[t] else 0
  }

  ghost predicate Sorted<T>(s: seq<T>, k: Keys<T>) {
    forall i, j :: 0 <= i < j < |s| ==> At(k, s[i]) <= At(k, s[j])
  }

  /** `s` with `n` put behind every element whose key is not larger. */
  ghost function Stable<T>(s: seq<T>, n: T, k: Keys<T>): seq<T> {
    if s == [] then [n]
    else if At(k, n) < At(k, s[0]) then [n] + s
    else [s[0]] + Stable(s[1..], n, k)
  }

  lemma {:induction false} StableSplit<T>(a: seq<T>, n: T, b: seq<T>, k: Keys<T>)
    requires forall x :: x in a ==> At(k, x) <= At(k, n)
    requires forall x :: x in b ==> At(k, n) < At(k, x)
    ensures Stable(a + b, n, k) == a + [n] + b
  {
    if a == [] {
      assert a + b == b && a + [n] + b == [n] + b;
    } else {
      assert (a + b)[0] == a[0] && (a + b)[1..] == a[1..] + b;
      assert a[0] in a;
      StableSplit(a[1..], n, b, k);
      assert [a[0]] + (a[1..] + [n] + b) == a + [n] + b;
    }
  }

  /** Insertion adds just `n`. */
  lemma {:induction false} StableContents<T>(s: seq<T>, n: T, k: Keys<T>)
    ensures multiset(Stable(s, n, k)) == multiset(s) + multiset{n}
    ensures |Stable(s, n, k)| == |s| + 1
  {
    if s != [] && At(k, s[0]) <= At(k, n) {
      StableContents(s[1..], n, k);
      assert s == [s[0]] + s[1..];
    }
  }

  lemma StableMember<T>(s: seq<T>, n: T, k: Keys<T>, i: nat)
    requires i < |Stable(s, n, k)|
    ensures Stable(s, n, k)[i] == n || Stable(s, n, k)[i] in s
  {
    StableContents(s, n, k);
    assert Stable(s, n, k)[i] in multiset(Stable(s, n, k));
  }

  /** Insertion keeps the order. */
  lemma {:induction false} StableSorted<T>(s: seq<T>, n: T, k: Keys<T>)
    requires Sorted(s, k)
    ensures Sorted(Stable(s, n, k), k)
  {
    if s == [] {
    } else if At(k, n) < At(k, s[0]) {
      assert forall i :: 0 <= i < |s| ==> At(k, s[0]) <= At(k, s[i]);
    } else {
      StableSorted(s[1..], n, k);
      var t := Stable(s[1..], n, k);
      forall i | 0 <= i < |t| ensures At(k, s[0]) <= At(k, t[i]) {
        StableMember(s[1..], n, k, i);
      }
      assert Sorted([s[0]] + t, k);
    }
  }

  /** What lies before (after) an element of a sorted sequence has no larger (smaller) key. */
  lemma SplitKeys<T>(a: seq<T>, n: T, b: seq<T>, k: Keys<T>)
    requires Sorted(a + [n] + b, k)
    ensures forall x :: x in a ==> At(k, x) <= At(k, n)
    ensures forall x :: x in b ==> At(k, n) <= At(k, x)
  {
    var s := a + [n] + b;
    assert s[|a|] == n;
    forall i | 0 <= i < |a| ensures At(k, a[i]) <= At(k, n) { assert s[i] == a[i]; }
    forall i | 0 <= i < |b| ensures At(k, n) <= At(k, b[i]) { assert s[|a| + 1 + i] == b[i]; }
  }
}
