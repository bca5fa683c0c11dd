/**
 `heapsort`: the array made into a heap from the bottom up, and then its largest element taken off again
 and again; the displaced element is put back by letting a hole sink to a leaf and climb to its place.
 */
module HeapSort {
  import opened Ordering

  /** Records are numbered from 1. */
  function K<T>(s: seq<T>, i: nat): T
    requires 1 <= i <= |s|
  {
    s[i - 1]
  }

  /** From record `lo` on, no record is below its parent. */
  ghost predicate Heap<T>(cmp: Cmp<T>, s: seq<T>, lo: nat, n: nat) {
    n <= |s| && forall j: nat :: InHeap(lo, n, j) ==> cmp(K(s, j / 2), K(s, j)) >= 0
  }

  /** A record with a parent from `lo` on. */
  predicate InHeap(lo: nat, n: nat, j: nat) {
    2 <= j <= n && lo <= j / 2
  }

  lemma Halves(j: nat, i: nat)
    requires j >= 1
    ensures j / 2 == i <==> j == 2 * i || j == 2 * i + 1
  {
  }

  lemma GeTrans<T(!new)>(cmp: Cmp<T>, x: T, y: T, z: T)
    requires TotalPreorder(cmp) && cmp(x, y) >= 0 && cmp(y, z) >= 0
    ensures cmp(x, z) >= 0
  {
    assert cmp(z, y) <= 0 && cmp(y, x) <= 0;
    assert cmp(z, x) <= 0;
  }

  /** The same records with the one numbered `i` replaced by `k`. */
  function Put<T>(s: seq<T>, i: nat, k: T): seq<T>
    requires 1 <= i <= |s|
  {
    s[i - 1 := k]
  }

  /** Moving a hole: record `j` is copied into it and `k` belongs into the place of `j` instead. */
  lemma MoveHole<T>(s: seq<T>, i: nat, j: nat, k: T)
    requires 1 <= i <= |s| && 1 <= j <= |s| && i != j
    ensures multiset(Put(Put(s, i, K(s, j)), j, k)) == multiset(Put(s, i, k))
  {
    var x := K(s, j);
    assert multiset(Put(s, i, x)) == multiset(s) - multiset{K(s, i)} + multiset{x};
    assert K(Put(s, i, x), j) == x;
    assert multiset(Put(Put(s, i, x), j, k)) == multiset(Put(s, i, x)) - multiset{x} + multiset{k};
  }

  // ----- CREATE -----

  /** A heap from `lo` on but for record `i`, which may be below its children; they are not above its parent. */
  ghost predicate HeapBut<T>(cmp: Cmp<T>, s: seq<T>, lo: nat, n: nat, i: nat) {
    && n <= |s| && lo >= 1 && i >= 1
    && (forall j: nat :: InHeap(lo, n, j) && j / 2 != i ==> cmp(K(s, j / 2), K(s, j)) >= 0)
    && (forall j: nat :: InHeap(lo, n, j) && j / 2 == i && lo <= i / 2 ==> cmp(K(s, i / 2), K(s, j)) >= 0)
  }

  ghost predicate LargerChild<T>(cmp: Cmp<T>, s: seq<T>, n: nat, i: nat, c: nat)
  {
    && n <= |s| && 1 <= i && c <= n && (c == 2 * i || c == 2 * i + 1)
    && (2 * i <= n ==> cmp(K(s, c), K(s, 2 * i)) >= 0) && (2 * i + 1 <= n ==> cmp(K(s, c), K(s, 2 * i + 1)) >= 0)
  }

  method PickChild<T(!new)>(a: array<T>, n: nat, i: nat, cmp: Cmp<T>) returns (c: nat)
    requires TotalPreorder(cmp) && n <= a.Length && 1 <= i && 2 * i <= n
    ensures LargerChild(cmp, a[..], n, i, c)
  {
    c := 2 * i;
    if c < n && cmp(a[c - 1], a[c]) < 0 {
      c := c + 1;
    }
  }

  lemma SwapDown<T(!new)>(cmp: Cmp<T>, s: seq<T>, lo: nat, n: nat, i: nat, c: nat)
    requires TotalPreorder(cmp) && 1 <= lo <= i <= n && HeapBut(cmp, s, lo, n, i) && LargerChild(cmp, s, n, i, c)
    requires cmp(K(s, c), K(s, i)) > 0
    ensures HeapBut(cmp, Put(Put(s, i, K(s, c)), c, K(s, i)), lo, n, c)
  {
    hide TotalPreorder;
    var t := Put(Put(s, i, K(s, c)), c, K(s, i));
    forall j: nat | InHeap(lo, n, j) && j / 2 != c ensures cmp(K(t, j / 2), K(t, j)) >= 0 {
      Halves(j, i);
      Flip(cmp, K(s, c), K(s, i));
      if j / 2 == i {
        if j == c {
          assert cmp(K(s, c), K(s, i)) >= 0;
        }
      } else if j == i {
        assert cmp(K(s, i / 2), K(s, c)) >= 0;
      }
    }
    forall j: nat | InHeap(lo, n, j) && j / 2 == c && lo <= c / 2 ensures cmp(K(t, c / 2), K(t, j)) >= 0 {
      Halves(c, i);
      assert cmp(K(s, j / 2), K(s, j)) >= 0;
    }
  }

  lemma DownEnds<T(!new)>(cmp: Cmp<T>, s: seq<T>, lo: nat, n: nat, i: nat)
    requires TotalPreorder(cmp) && 1 <= lo <= i && HeapBut(cmp, s, lo, n, i)
    requires 2 * i > n || exists c :: LargerChild(cmp, s, n, i, c) && cmp(K(s, c), K(s, i)) <= 0
    ensures Heap(cmp, s, lo, n)
  {
    hide TotalPreorder;
    forall j: nat | InHeap(lo, n, j) ensures cmp(K(s, j / 2), K(s, j)) >= 0 {
      if j / 2 == i {
        Halves(j, i);
        var c :| LargerChild(cmp, s, n, i, c) && cmp(K(s, c), K(s, i)) <= 0;
        Flip(cmp, K(s, i), K(s, c));
        GeTrans(cmp, K(s, i), K(s, c), K(s, j));
      }
    }
  }

  /** CREATE: record `l` sinks until it is not below its children. */
  method Create<T(!new)>(a: array<T>, l: nat, n: nat, cmp: Cmp<T>)
    requires TotalPreorder(cmp) && 1 <= l <= n <= a.Length && Heap(cmp, a[..], l + 1, n)
    modifies a
    ensures Heap(cmp, a[..], l, n) && multiset(a[..]) == multiset(old(a[..]))
  {
    hide TotalPreorder, LargerChild;
    var i := l;
    CreateStarts(cmp, a[..], l, n);
    while 2 * i <= n
      invariant l <= i <= n && HeapBut(cmp, a[..], l, n, i) && multiset(a[..]) == multiset(old(a[..]))
      decreases n - i
    {
      var c := PickChild(a, n, i, cmp);
      ChildIs(cmp, a[..], n, i, c);
      if cmp(a[c - 1], a[i - 1]) <= 0 {
        break;
      }
      ghost var s := a[..];
      SwapDown(cmp, s, l, n, i, c);
      MoveHole(s, i, c, K(s, i));
      a[i - 1], a[c - 1] := a[c - 1], a[i - 1];
      assert a[..] == Put(Put(s, i, K(s, c)), c, K(s, i));
      assert Put(s, i, K(s, i)) == s;
      i := c;
    }
    DownEnds(cmp, a[..], l, n, i);
  }

  lemma ChildIs<T>(cmp: Cmp<T>, s: seq<T>, n: nat, i: nat, c: nat)
    requires LargerChild(cmp, s, n, i, c)
    ensures i < c <= n <= |s| && c / 2 == i
  {
  }

  lemma CreateStarts<T>(cmp: Cmp<T>, s: seq<T>, l: nat, n: nat)
    requires 1 <= l && Heap(cmp, s, l + 1, n)
    ensures HeapBut(cmp, s, l, n, l)
  {
    forall j: nat | InHeap(l, n, j) && j / 2 != l ensures cmp(K(s, j / 2), K(s, j)) >= 0 {
      assert InHeap(l + 1, n, j);
    }
  }

  // ----- SELECT -----

  /** Copying the larger child over its parent keeps a heap. */
  lemma CopyUp<T(!new)>(cmp: Cmp<T>, s: seq<T>, n: nat, i: nat, c: nat)
    requires TotalPreorder(cmp) && Heap(cmp, s, 1, n) && LargerChild(cmp, s, n, i, c)
    ensures Heap(cmp, Put(s, i, K(s, c)), 1, n)
  {
    hide TotalPreorder;
    var t := Put(s, i, K(s, c));
    forall j: nat | InHeap(1, n, j) ensures cmp(K(t, j / 2), K(t, j)) >= 0 {
      Halves(j, i);
      Halves(c, i);
      assert cmp(K(s, j / 2), K(s, j)) >= 0;
      if j == i {
        assert InHeap(1, n, c) && cmp(K(s, c / 2), K(s, c)) >= 0;
        GeTrans(cmp, K(s, i / 2), K(s, i), K(s, c));
      }
    }
  }

  /** Copying a parent over its child keeps a heap. */
  lemma CopyDown<T(!new)>(cmp: Cmp<T>, s: seq<T>, n: nat, c: nat)
    requires TotalPreorder(cmp) && Heap(cmp, s, 1, n) && 2 <= c <= n
    ensures Heap(cmp, Put(s, c, K(s, c / 2)), 1, n)
  {
    hide TotalPreorder;
    var t := Put(s, c, K(s, c / 2));
    assert InHeap(1, n, c) && cmp(K(s, c / 2), K(s, c)) >= 0;
    forall j: nat | InHeap(1, n, j) ensures cmp(K(t, j / 2), K(t, j)) >= 0 {
      assert cmp(K(s, j / 2), K(s, j)) >= 0;
      if j / 2 == c {
        GeTrans(cmp, K(s, c / 2), K(s, c), K(s, j));
      } else if j == c {
        Same(cmp, K(s, c / 2));
      }
    }
  }

  lemma Same<T(!new)>(cmp: Cmp<T>, x: T)
    requires TotalPreorder(cmp)
    ensures cmp(x, x) == 0
  {
  }

  /** `k` is not below what is under record `c`. */
  ghost predicate Above<T>(cmp: Cmp<T>, s: seq<T>, n: nat, c: nat, k: T) {
    n <= |s| && forall j: nat :: InHeap(1, n, j) && j / 2 == c ==> cmp(k, K(s, j)) >= 0
  }

  lemma Climb<T(!new)>(cmp: Cmp<T>, s: seq<T>, n: nat, c: nat, k: T)
    requires TotalPreorder(cmp) && Heap(cmp, s, 1, n) && 2 <= c <= n && cmp(k, K(s, c / 2)) >= 0
    ensures Above(cmp, Put(s, c, K(s, c / 2)), n, c / 2, k)
  {
    hide TotalPreorder;
    var t := Put(s, c, K(s, c / 2));
    forall j: nat | InHeap(1, n, j) && j / 2 == c / 2 ensures cmp(k, K(t, j)) >= 0 {
      assert cmp(K(s, j / 2), K(s, j)) >= 0;
      GeTrans(cmp, k, K(s, c / 2), K(s, j));
    }
  }

  lemma Placed<T(!new)>(cmp: Cmp<T>, s: seq<T>, n: nat, c: nat, k: T)
    requires TotalPreorder(cmp) && Heap(cmp, s, 1, n) && 1 <= c <= n && Above(cmp, s, n, c, k)
    requires c == 1 || cmp(k, K(s, c / 2)) < 0
    ensures Heap(cmp, Put(s, c, k), 1, n)
  {
    hide TotalPreorder;
    var t := Put(s, c, k);
    forall j: nat | InHeap(1, n, j) ensures cmp(K(t, j / 2), K(t, j)) >= 0 {
      if j == c {
        Flip(cmp, K(s, c / 2), k);
      } else if j / 2 == c {
        assert cmp(k, K(s, j)) >= 0;
      } else {
        assert cmp(K(s, j / 2), K(s, j)) >= 0;
      }
    }
  }

  /** SELECT: the hole at the top sinks to a leaf, and `k` climbs from there; no element is lost. */
  method Select<T(!new)>(a: array<T>, n: nat, k: T, cmp: Cmp<T>)
    requires TotalPreorder(cmp) && 1 <= n <= a.Length && Heap(cmp, a[..], 1, n)
    modifies a
    ensures Heap(cmp, a[..], 1, n) && a[n..] == old(a[n..])
    ensures multiset(a[..]) == multiset(Put(old(a[..]), 1, k))
  {
    hide TotalPreorder, LargerChild, Heap, Above;
    var par := 1;
    while 2 * par <= n
      invariant 1 <= par <= n && Heap(cmp, a[..], 1, n) && a[n..] == old(a[n..])
      invariant multiset(Put(a[..], par, k)) == multiset(Put(old(a[..]), 1, k))
      decreases n - par
    {
      var c := PickChild(a, n, par, cmp);
      ghost var s := a[..];
      ChildIs(cmp, s, n, par, c);
      CopyUp(cmp, s, n, par, c);
      MoveHole(s, par, c, k);
      a[par - 1] := a[c - 1];
      assert a[..] == Put(s, par, K(s, c));
      par := c;
    }
    assert Above(cmp, a[..], n, par, k) by { LeafAbove(cmp, a[..], n, par, k); }
    while true
      invariant 1 <= par <= n && Heap(cmp, a[..], 1, n) && a[n..] == old(a[n..]) && Above(cmp, a[..], n, par, k)
      invariant multiset(Put(a[..], par, k)) == multiset(Put(old(a[..]), 1, k))
      decreases par
    {
      var child := par;
      par := child / 2;
      ghost var s := a[..];
      if child == 1 || cmp(k, a[par - 1]) < 0 {
        Placed(cmp, s, n, child, k);
        a[child - 1] := k;
        assert a[..] == Put(s, child, k);
        break;
      }
      CopyDown(cmp, s, n, child);
      Climb(cmp, s, n, child, k);
      MoveHole(s, child, par, k);
      a[child - 1] := a[par - 1];
      assert a[..] == Put(s, child, K(s, par));
    }
  }

  lemma LeafAbove<T>(cmp: Cmp<T>, s: seq<T>, n: nat, c: nat, k: T)
    requires n <= |s| && 2 * c > n
    ensures Above(cmp, s, n, c, k)
  {
  }

  // ----- heapsort -----

  /** The top of a heap is not below anything in it. */
  lemma {:induction false} TopIsLargest<T(!new)>(cmp: Cmp<T>, s: seq<T>, n: nat, j: nat)
    requires TotalPreorder(cmp) && Heap(cmp, s, 1, n) && 1 <= j <= n
    ensures cmp(K(s, 1), K(s, j)) >= 0
    decreases j
  {
    hide TotalPreorder;
    if j == 1 {
      Same(cmp, K(s, 1));
    } else {
      assert InHeap(1, n, j);
      TopIsLargest(cmp, s, n, j / 2);
      GeTrans(cmp, K(s, 1), K(s, j / 2), K(s, j));
    }
  }

  /** The elements from `n` on are in order, and none before them is above them. */
  ghost predicate Done<T>(cmp: Cmp<T>, s: seq<T>, n: nat) {
    n <= |s| && forall i, j :: 0 <= i < j < |s| && n <= j ==> cmp(s[i], s[j]) <= 0
  }

  /** The largest element put behind the others, and then the others rearranged. */
  lemma OneMore<T(!new)>(cmp: Cmp<T>, s: seq<T>, n: nat, t: seq<T>)
    requires TotalPreorder(cmp) && Heap(cmp, s, 1, n) && Done(cmp, s, n) && 2 <= n <= |s| == |t|
    requires t[n - 1..] == Put(s, n, K(s, 1))[n - 1..]
    requires multiset(t) == multiset(s)
    ensures Done(cmp, t, n - 1)
  {
    hide TotalPreorder, Heap;
    var u := Put(s, n, K(s, 1));
    PrefixPermuted(s, u, t, n);
    forall i, j | 0 <= i < j < |t| && n - 1 <= j ensures cmp(t[i], t[j]) <= 0 {
      assert t[j] == t[n - 1..][j - (n - 1)] == u[n - 1..][j - (n - 1)];
      if i < n - 1 {
        assert t[i] == t[..n - 1][i];
        assert t[i] in s[..n];
        var x :| 0 <= x < n && s[..n][x] == t[i];
        if j == n - 1 {
          TopIsLargest(cmp, s, n, x + 1);
          Flip(cmp, K(s, 1), s[x]);
        } else {
          assert cmp(s[x], s[j]) <= 0;
        }
      } else {
        assert t[i] == t[n - 1..][i - (n - 1)] == u[n - 1..][i - (n - 1)];
        assert u[i] == if i == n - 1 then s[0] else s[i];
        if i == n - 1 {
          assert cmp(s[0], s[j]) <= 0;
        } else {
          assert cmp(s[i], s[j]) <= 0;
        }
      }
    }
  }

  lemma PrefixPermuted<T>(s: seq<T>, u: seq<T>, t: seq<T>, n: nat)
    requires 2 <= n <= |s| == |t| && u == Put(s, n, K(s, 1)) && t[n - 1..] == u[n - 1..] && multiset(t) == multiset(s)
    ensures forall y :: y in t[..n - 1] ==> y in s[..n]
  {
    assert t == t[..n - 1] + t[n - 1..];
    assert t[n - 1..] == [s[0]] + s[n..] by { assert u[n - 1..] == [s[0]] + s[n..]; }
    assert s == s[..n] + s[n..];
    assert multiset(t) == multiset(t[..n - 1]) + (multiset{s[0]} + multiset(s[n..]));
    assert multiset(s) == multiset(s[..n]) + multiset(s[n..]);
    forall y | y in t[..n - 1] ensures y in s[..n] {
      assert y in multiset(t[..n - 1]);
      assert multiset(t)[y] == multiset(s)[y];
      assert y in multiset(s[..n]);
    }
  }

  lemma DoneSorted<T>(cmp: Cmp<T>, s: seq<T>)
    requires Done(cmp, s, 1) || |s| <= 1
    ensures Sorted(cmp, s)
  {
  }

  /** The heap part shrinks by one and its largest element goes behind it. */
  method TakeLargest<T(!new)>(a: array<T>, n: nat, cmp: Cmp<T>)
    requires TotalPreorder(cmp) && 2 <= n <= a.Length && Heap(cmp, a[..], 1, n) && Done(cmp, a[..], n)
    modifies a
    ensures Heap(cmp, a[..], 1, n - 1) && Done(cmp, a[..], n - 1) && multiset(a[..]) == multiset(old(a[..]))
  {
    hide TotalPreorder, Done;
    ghost var s := a[..];
    var k := a[n - 1];
    a[n - 1] := a[0];
    ghost var u := a[..];
    assert u == Put(s, n, K(s, 1));
    Smaller(cmp, s, u, n);
    MoveHole(s, n, 1, k);
    assert Put(s, n, k) == s;
    Select(a, n - 1, k, cmp);
    OneMore(cmp, s, n, a[..]);
  }

  lemma Smaller<T>(cmp: Cmp<T>, s: seq<T>, u: seq<T>, n: nat)
    requires Heap(cmp, s, 1, n) && 2 <= n <= |s| && u == Put(s, n, K(s, 1))
    ensures Heap(cmp, u, 1, n - 1)
  {
    forall j: nat | InHeap(1, n - 1, j) ensures cmp(K(u, j / 2), K(u, j)) >= 0 {
      assert InHeap(1, n, j);
    }
  }

  /** The array sorted; elements of no size are refused. */
  method Heapsort<T(!new)>(a: array<T>, size: nat, cmp: Cmp<T>) returns (r: int)
    requires TotalPreorder(cmp)
    modifies a
    ensures r == if a.Length > 1 && size == 0 then -1 else 0
    ensures r == 0 ==> Sorted(cmp, a[..]) && multiset(a[..]) == multiset(old(a[..]))
    ensures r == -1 ==> a[..] == old(a[..])
  {
    hide TotalPreorder, Heap, Done;
    var nmemb := a.Length;
    if nmemb <= 1 {
      return 0;
    }
    if size == 0 {
      return -1;
    }
    var l := nmemb / 2;
    Bottom(cmp, a[..], l, nmemb);
    while l > 0
      invariant 0 <= l <= nmemb / 2 && Heap(cmp, a[..], l + 1, nmemb) && multiset(a[..]) == multiset(old(a[..]))
    {
      Create(a, l, nmemb, cmp);
      l := l - 1;
    }
    assert Done(cmp, a[..], nmemb) by { NoneDone(cmp, a[..]); }
    while nmemb > 1
      invariant 1 <= nmemb <= a.Length && Heap(cmp, a[..], 1, nmemb) && Done(cmp, a[..], nmemb)
      invariant multiset(a[..]) == multiset(old(a[..]))
    {
      TakeLargest(a, nmemb, cmp);
      nmemb := nmemb - 1;
    }
    DoneSorted(cmp, a[..]);
    return 0;
  }

  lemma NoneDone<T>(cmp: Cmp<T>, s: seq<T>)
    ensures Done(cmp, s, |s|)
  {
  }

  lemma Bottom<T>(cmp: Cmp<T>, s: seq<T>, l: nat, n: nat)
    requires n <= |s| && l == n / 2
    ensures Heap(cmp, s, l + 1, n)
  {
  }
}
