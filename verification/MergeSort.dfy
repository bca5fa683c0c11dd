/**
 `mergesort`: merge passes between the array and an idle one, with galloping searches for where one
 run's elements end before an element of the other.
 */
module MergeSort {
  import opened Ordering
  import opened MergeSetup

  // ----- the searches -----

  /** Once `q` does not go after an element it does not go after a later one. */
  ghost predicate Monotone<T>(cmp: Cmp<T>, s: seq<Cell<T>>, q: T, lo: nat, hi: nat, sense: int) {
    && hi <= |s| && (forall i :: lo <= i < hi ==> s[i].Elem?)
    && forall i, j :: lo <= i < j < hi && cmp(q, s[j].v) > sense ==> cmp(q, s[i].v) > sense
  }

  /** Where a linear scan from `lo` would stop. */
  ghost predicate SplitPoint<T>(cmp: Cmp<T>, s: seq<Cell<T>>, q: T, lo: nat, hi: nat, sense: int, b: nat) {
    && lo < b <= hi <= |s| && (forall i :: lo <= i < hi ==> s[i].Elem?)
    && (forall i :: lo < i < b ==> cmp(q, s[i].v) > sense)
    && (b < hi ==> cmp(q, s[b].v) <= sense)
  }

  /** The split point lies above `b` and not above `t`. */
  ghost predicate Between<T>(cmp: Cmp<T>, s: seq<Cell<T>>, q: T, lo: nat, hi: nat, sense: int, b: nat, t: nat) {
    && lo <= b < t <= hi <= |s| && (forall i :: lo <= i < hi ==> s[i].Elem?)
    && (b > lo ==> cmp(q, s[b].v) > sense) && (t < hi ==> cmp(q, s[t].v) <= sense)
  }

  predicate PowerOfTwo(i: nat) {
    i == 1 || (i > 1 && i % 2 == 0 && PowerOfTwo(i / 2))
  }

  lemma Narrowed<T>(cmp: Cmp<T>, s: seq<Cell<T>>, q: T, lo: nat, hi: nat, sense: int, t: nat)
    requires Monotone(cmp, s, q, lo, hi, sense) && t > 0 && Between(cmp, s, q, lo, hi, sense, t - 1, t)
    ensures SplitPoint(cmp, s, q, lo, hi, sense, t)
  {
  }

  lemma Below<T>(cmp: Cmp<T>, s: seq<Cell<T>>, q: T, lo: nat, hi: nat, sense: int, b: nat, t: nat, p: nat)
    requires Between(cmp, s, q, lo, hi, sense, b, t) && b < p < t
    ensures cmp(q, s[p].v) <= sense ==> Between(cmp, s, q, lo, hi, sense, b, p)
    ensures cmp(q, s[p].v) > sense ==> Between(cmp, s, q, lo, hi, sense, p, t)
  {
  }

  /** The binary search between a doubling step that went past the end and the one before. */
  method Binary<T>(a: array<Cell<T>>, q: T, lo: nat, hi: nat, sense: int, b0: nat, t0: nat, cmp: Cmp<T>) returns (t: nat)
    requires Monotone(cmp, a[..], q, lo, hi, sense) && Between(cmp, a[..], q, lo, hi, sense, b0, t0)
    ensures SplitPoint(cmp, a[..], q, lo, hi, sense, t)
  {
    hide Monotone, Between;
    var b := b0;
    t := t0;
    BetweenOrder(cmp, a[..], q, lo, hi, sense, b, t);
    while t > b + 1
      invariant 0 <= b < t && Between(cmp, a[..], q, lo, hi, sense, b, t)
      decreases t - b
    {
      var i := (t - b) / 2;
      var p := b + i;
      BetweenOrder(cmp, a[..], q, lo, hi, sense, b, t);
      Below(cmp, a[..], q, lo, hi, sense, b, t, p);
      if cmp(q, a[p].v) <= sense {
        t := p;
      } else {
        b := p;
      }
    }
    Narrowed(cmp, a[..], q, lo, hi, sense, t);
  }

  lemma BetweenOrder<T>(cmp: Cmp<T>, s: seq<Cell<T>>, q: T, lo: nat, hi: nat, sense: int, b: nat, t: nat)
    requires Between(cmp, s, q, lo, hi, sense, b, t)
    ensures lo <= b < t <= hi <= |s| && forall i :: lo <= i < hi ==> s[i].Elem?
  {
  }

  /** FASTCASE: the distance is a power of two and is halved. */
  method Halving<T>(a: array<Cell<T>>, q: T, lo: nat, hi: nat, sense: int, b0: nat, i0: nat, cmp: Cmp<T>) returns (t: nat)
    requires PowerOfTwo(i0)
    requires Monotone(cmp, a[..], q, lo, hi, sense) && Between(cmp, a[..], q, lo, hi, sense, b0, b0 + i0)
    ensures SplitPoint(cmp, a[..], q, lo, hi, sense, t)
  {
    hide Monotone, Between;
    var b, i := b0, i0;
    t := b0 + i0;
    while i > 1
      invariant PowerOfTwo(i) && t == b + i && Between(cmp, a[..], q, lo, hi, sense, b, t)
    {
      i := i / 2;
      var p := b + i;
      BetweenOrder(cmp, a[..], q, lo, hi, sense, b, t);
      Below(cmp, a[..], q, lo, hi, sense, b, t, p);
      if cmp(q, a[p].v) <= sense {
        t := p;
      } else {
        b := p;
      }
    }
    Narrowed(cmp, a[..], q, lo, hi, sense, t);
  }

  /** EXPONENTIAL: doubling steps from `b`, then a search in the last one. */
  method Gallop<T>(a: array<Cell<T>>, q: T, lo: nat, hi: nat, sense: int, b0: nat, big0: bool, cmp: Cmp<T>)
    returns (t: nat, big: bool)
    requires Monotone(cmp, a[..], q, lo, hi, sense) && Between(cmp, a[..], q, lo, hi, sense, b0, hi)
    ensures SplitPoint(cmp, a[..], q, lo, hi, sense, t)
  {
    hide Monotone, Between;
    var b, i := b0, 1;
    t, big := hi, big0;
    BetweenOrder(cmp, a[..], q, lo, hi, sense, b, t);
    while true
      invariant 0 <= b < hi && 1 <= i && PowerOfTwo(i) && t == hi && Between(cmp, a[..], q, lo, hi, sense, b, hi)
      decreases hi - b
    {
      BetweenOrder(cmp, a[..], q, lo, hi, sense, b, t);
      var p := b + i;
      if p >= t {
        p := t - 1;
        if p > b {
          Below(cmp, a[..], q, lo, hi, sense, b, t, p);
        }
        if p > b && cmp(q, a[p].v) <= sense {
          t := p;
        } else {
          b := p;
        }
        break;
      } else {
        Below(cmp, a[..], q, lo, hi, sense, b, t, p);
        if cmp(q, a[p].v) <= sense {
          t := p;
          if i == 1 {
            big := false;
          }
          t := Halving(a, q, lo, hi, sense, b, i, cmp);
          return;
        } else {
          b := p;
        }
      }
      i := i * 2;
    }
    t := Binary(a, q, lo, hi, sense, b, t, cmp);
  }

  /** Where the elements from `lo` that go before `q` end: six steps one by one, then galloping. */
  method Search<T>(a: array<Cell<T>>, q: T, lo: nat, hi: nat, sense: int, big0: bool, cmp: Cmp<T>) returns (b: nat, big: bool)
    requires lo < hi && Monotone(cmp, a[..], q, lo, hi, sense)
    ensures SplitPoint(cmp, a[..], q, lo, hi, sense, b)
  {
    b, big := lo, big0;
    if !big {
      var i := 0;
      while true
        invariant lo <= b < hi && i < 6 && forall k :: lo < k <= b ==> cmp(q, a[k].v) > sense
        decreases hi - b
      {
        b := b + 1;
        if !(b < hi && cmp(q, a[b].v) > sense) {
          return;
        }
        i := i + 1;
        if i == 6 {
          big := true;
          break;
        }
      }
    }
    b, big := Gallop(a, q, lo, hi, sense, b, big, cmp);
  }

  // ----- merging two runs -----

  method CopyList<T>(src: array<Cell<T>>, from: nat, to: nat, dst: array<Cell<T>>, at: nat)
    requires src != dst && from <= to <= src.Length && at + (to - from) <= dst.Length
    modifies dst
    ensures dst[..] == old(dst[..at]) + src[from..to] + old(dst[at + (to - from)..])
  {
    ghost var was := dst[..];
    var f, d := from, at;
    while f < to
      invariant from <= f <= to && d == at + (f - from)
      invariant forall k :: from <= k < f ==> dst[at + (k - from)] == src[k]
      invariant forall k :: 0 <= k < at || d <= k < dst.Length ==> dst[k] == was[k]
    {
      dst[d] := src[f];
      f, d := f + 1, d + 1;
    }
    assert dst[..at] == was[..at];
    assert dst[at..d] == src[from..to];
    assert dst[d..] == was[d..];
    assert dst[..] == dst[..at] + dst[at..d] + dst[d..];
  }

  /** The elements of a stretch of cells. */
  ghost predicate Holds<T>(s: seq<Cell<T>>, lo: nat, hi: nat, w: seq<T>) {
    && lo <= hi <= |s| && |w| == hi - lo
    && forall i :: lo <= i < hi ==> s[i].Elem? && s[i].v == w[i - lo]
  }

  lemma HoldsMore<T>(s: seq<Cell<T>>, t: seq<Cell<T>>, start: nat, at: nat, out: seq<T>, src: seq<Cell<T>>, from: nat, to: nat, w: seq<T>)
    requires Holds(s, start, at, out) && Holds(src, from, to, w) && at + (to - from) <= |s|
    requires t == s[..at] + src[from..to] + s[at + (to - from)..]
    ensures Holds(t, start, at + (to - from), out + w)
  {
    forall i | start <= i < at + (to - from) ensures t[i].Elem? && t[i].v == (out + w)[i - start] {
      if i >= at {
        assert t[i] == src[from..to][i - at] == src[from + (i - at)];
      }
    }
  }

  lemma HoldsTail<T>(s: seq<Cell<T>>, lo: nat, hi: nat, w: seq<T>, k: nat)
    requires Holds(s, lo, hi, w) && k <= |w|
    ensures Holds(s, lo + k, hi, w[k..]) && Holds(s, lo, lo + k, w[..k])
  {
  }

  lemma MonotoneLeft<T(!new)>(cmp: Cmp<T>, s: seq<Cell<T>>, q: T, lo: nat, hi: nat, w: seq<T>)
    requires TotalPreorder(cmp) && Holds(s, lo, hi, w) && Sorted(cmp, w)
    ensures Monotone(cmp, s, q, lo, hi, -1) && Monotone(cmp, s, q, lo, hi, 0)
  {
    hide TotalPreorder;
    forall i, j | lo <= i < j < hi
      ensures cmp(q, s[j].v) > -1 ==> cmp(q, s[i].v) > -1
      ensures cmp(q, s[j].v) > 0 ==> cmp(q, s[i].v) > 0
    {
      assert cmp(w[i - lo], w[j - lo]) <= 0;
      Downward(cmp, q, s[i].v, s[j].v);
    }
  }

  lemma Downward<T(!new)>(cmp: Cmp<T>, q: T, x: T, y: T)
    requires TotalPreorder(cmp) && cmp(x, y) <= 0
    ensures cmp(q, y) >= 0 ==> cmp(q, x) >= 0
    ensures cmp(q, y) > 0 ==> cmp(q, x) > 0
  {
    assert cmp(q, x) <= 0 ==> cmp(q, y) <= 0;
    assert cmp(y, q) <= 0 ==> cmp(x, q) <= 0;
  }

  /** The left run's stretch that goes first, and the right element after it. */
  lemma LeftStretch<T(!new)>(cmp: Cmp<T>, s: seq<Cell<T>>, lo: nat, hi: nat, a: seq<T>, b: seq<T>, k: nat)
    requires TotalPreorder(cmp) && Holds(s, lo, hi, a) && b != [] && a != [] && cmp(a[0], b[0]) <= 0
    requires SplitPoint(cmp, s, b[0], lo, hi, -1, k)
    ensures k - lo <= |a| && Merge(cmp, a, b) == a[..k - lo] + [b[0]] + Merge(cmp, a[k - lo..], b[1..])
  {
    hide TotalPreorder, Merge, Holds, SplitPoint;
    LeftFacts(cmp, s, lo, hi, a, b[0], k);
    GallopLeft(cmp, a, b, k - lo);
  }

  lemma LeftFacts<T(!new)>(cmp: Cmp<T>, s: seq<Cell<T>>, lo: nat, hi: nat, a: seq<T>, q: T, k: nat)
    requires TotalPreorder(cmp) && Holds(s, lo, hi, a) && a != [] && cmp(a[0], q) <= 0
    requires SplitPoint(cmp, s, q, lo, hi, -1, k)
    ensures 0 <= k - lo <= |a| && (forall i :: 0 <= i < k - lo ==> cmp(a[i], q) <= 0)
    ensures k - lo < |a| ==> cmp(a[k - lo], q) > 0
  {
    hide TotalPreorder;
    var n := k - lo;
    forall i | 0 <= i < n ensures cmp(a[i], q) <= 0 {
      if i > 0 {
        assert s[lo + i].v == a[i];
        Flip(cmp, a[i], q);
      }
    }
    if n < |a| {
      assert s[lo + n].v == a[n];
      Flip(cmp, a[n], q);
    }
  }

  lemma RightStretch<T(!new)>(cmp: Cmp<T>, s: seq<Cell<T>>, lo: nat, hi: nat, a: seq<T>, b: seq<T>, k: nat)
    requires TotalPreorder(cmp) && Holds(s, lo, hi, b) && b != [] && a != [] && cmp(a[0], b[0]) > 0
    requires SplitPoint(cmp, s, a[0], lo, hi, 0, k)
    ensures k - lo <= |b| && Merge(cmp, a, b) == b[..k - lo] + [a[0]] + Merge(cmp, a[1..], b[k - lo..])
  {
    hide TotalPreorder, Merge, Holds, SplitPoint;
    RightFacts(cmp, s, lo, hi, b, a[0], k);
    GallopRight(cmp, a, b, k - lo);
  }

  lemma RightFacts<T(!new)>(cmp: Cmp<T>, s: seq<Cell<T>>, lo: nat, hi: nat, b: seq<T>, q: T, k: nat)
    requires Holds(s, lo, hi, b) && b != [] && cmp(q, b[0]) > 0
    requires SplitPoint(cmp, s, q, lo, hi, 0, k)
    ensures 0 <= k - lo <= |b| && (forall i :: 0 <= i < k - lo ==> cmp(q, b[i]) > 0)
    ensures k - lo < |b| ==> cmp(q, b[k - lo]) <= 0
  {
    forall i | 0 <= i <= k - lo && i < |b| ensures s[lo + i].v == b[i] {}
    forall i | 0 < i < k - lo ensures cmp(q, b[i]) > 0 {
      assert cmp(q, s[lo + i].v) > 0;
    }
  }

  lemma HoldsFacts<T>(s: seq<Cell<T>>, lo: nat, hi: nat, w: seq<T>)
    requires Holds(s, lo, hi, w)
    ensures lo <= hi <= |s| && |w| == hi - lo
    ensures lo < hi ==> s[lo].Elem? && s[lo].v == w[0]
  {
  }

  lemma SplitFacts<T>(cmp: Cmp<T>, s: seq<Cell<T>>, q: T, lo: nat, hi: nat, sense: int, b: nat)
    requires SplitPoint(cmp, s, q, lo, hi, sense, b)
    ensures lo < b <= hi
  {
  }

  lemma SortedTail<T>(cmp: Cmp<T>, s: seq<T>, k: nat)
    requires Sorted(cmp, s) && k <= |s|
    ensures Sorted(cmp, s[k..])
  {
  }

  /** ICOPY_LIST or CCOPY_LIST, then one element of the other run. */
  method CopyBoth<T>(list1: array<Cell<T>>, from: nat, to: nat, one: nat, list2: array<Cell<T>>, start: nat, tp2: nat, l2: nat,
      ghost out: seq<T>, ghost w: seq<T>, ghost x: seq<T>) returns (tp2': nat)
    requires list1 != list2 && Holds(list2[..], start, tp2, out)
    requires Holds(list1[..], from, to, w) && Holds(list1[..], one, one + 1, x) && tp2 + (to - from) + 1 <= l2 <= list2.Length
    modifies list2
    ensures tp2' == tp2 + (to - from) + 1 && Holds(list2[..], start, tp2', out + w + x)
    ensures list2[..start] == old(list2[..start]) && list2[l2..] == old(list2[l2..])
  {
    hide Holds;
    HoldsFacts(list1[..], from, to, w);
    HoldsFacts(list1[..], one, one + 1, x);
    HoldsFacts(list2[..], start, tp2, out);
    ghost var was := list2[..];
    CopyList(list1, from, to, list2, tp2);
    HoldsMore(was, list2[..], start, tp2, out, list1[..], from, to, w);
    ghost var mid := list2[..];
    tp2' := tp2 + (to - from);
    CopyList(list1, one, one + 1, list2, tp2');
    HoldsMore(mid, list2[..], start, tp2', out + w, list1[..], one, one + 1, x);
    tp2' := tp2' + 1;
  }

  /** A stretch of the left run and the right element it stops at. */
  method FromLeft<T(!new)>(list1: array<Cell<T>>, list2: array<Cell<T>>, start: nat, f1: nat, l1: nat, f2: nat, l2: nat, tp2: nat,
      big0: bool, cmp: Cmp<T>, ghost ra: seq<T>, ghost rb: seq<T>, ghost out: seq<T>)
    returns (b: nat, tp2': nat, big: bool, ghost out': seq<T>, ghost ra': seq<T>)
    requires TotalPreorder(cmp) && list1 != list2 && list1.Length == list2.Length
    requires start <= f1 < l1 <= f2 < l2 && tp2 - start == (f1 - start) + (f2 - l1)
    requires Holds(list1[..], f1, l1, ra) && Holds(list1[..], f2, l2, rb) && Sorted(cmp, ra) && Holds(list2[..], start, tp2, out)
    requires cmp(list1[f1].v, list1[f2].v) <= 0
    modifies list2
    ensures f1 < b <= l1 && tp2' == tp2 + (b - f1) + 1 && Holds(list1[..], b, l1, ra') && Sorted(cmp, ra')
    ensures Holds(list2[..], start, tp2', out') && out' + Merge(cmp, ra', rb[1..]) == out + Merge(cmp, ra, rb)
    ensures list2[..start] == old(list2[..start]) && list2[l2..] == old(list2[l2..])
    ensures Holds(list1[..], f2 + 1, l2, rb[1..])
  {
    hide TotalPreorder, Merge, Monotone, Holds, SplitPoint, Sorted;
    ghost var src := list1[..];
    HoldsFacts(src, f1, l1, ra);
    HoldsFacts(src, f2, l2, rb);
    HoldsFacts(list2[..], start, tp2, out);
    var q := list1[f2].v;
    MonotoneLeft(cmp, list1[..], q, f1, l1, ra);
    b, big := Search(list1, q, f1, l1, -1, big0, cmp);
    SplitFacts(cmp, src, q, f1, l1, -1, b);
    LeftStretch(cmp, list1[..], f1, l1, ra, rb, b);
    SortedTail(cmp, ra, b - f1);
    HoldsTail(src, f1, l1, ra, b - f1);
    HoldsTail(src, f2, l2, rb, 1);
    tp2' := CopyBoth(list1, f1, b, f2, list2, start, tp2, l2, out, ra[..b - f1], rb[..1]);
    out', ra' := out + ra[..b - f1] + rb[..1], ra[b - f1..];
    assert rb[..1] == [rb[0]];
    Regroup(out, ra[..b - f1], [rb[0]], Merge(cmp, ra', rb[1..]));
  }

  lemma Regroup<T>(a: seq<T>, b: seq<T>, c: seq<T>, d: seq<T>)
    ensures a + b + c + d == a + (b + c + d)
  {
  }

  /** A stretch of the right run and the left element it stops at. */
  method FromRight<T(!new)>(list1: array<Cell<T>>, list2: array<Cell<T>>, start: nat, f1: nat, l1: nat, f2: nat, l2: nat, tp2: nat,
      big0: bool, cmp: Cmp<T>, ghost ra: seq<T>, ghost rb: seq<T>, ghost out: seq<T>)
    returns (b: nat, tp2': nat, big: bool, ghost out': seq<T>, ghost rb': seq<T>)
    requires TotalPreorder(cmp) && list1 != list2 && list1.Length == list2.Length
    requires start <= f1 < l1 <= f2 < l2 && tp2 - start == (f1 - start) + (f2 - l1)
    requires Holds(list1[..], f1, l1, ra) && Holds(list1[..], f2, l2, rb) && Sorted(cmp, rb) && Holds(list2[..], start, tp2, out)
    requires cmp(list1[f1].v, list1[f2].v) > 0
    modifies list2
    ensures f2 < b <= l2 && tp2' == tp2 + (b - f2) + 1 && Holds(list1[..], b, l2, rb') && Sorted(cmp, rb')
    ensures Holds(list2[..], start, tp2', out') && out' + Merge(cmp, ra[1..], rb') == out + Merge(cmp, ra, rb)
    ensures list2[..start] == old(list2[..start]) && list2[l2..] == old(list2[l2..])
    ensures Holds(list1[..], f1 + 1, l1, ra[1..])
  {
    hide TotalPreorder, Merge, Monotone, Holds, SplitPoint, Sorted;
    ghost var src := list1[..];
    HoldsFacts(src, f1, l1, ra);
    HoldsFacts(src, f2, l2, rb);
    HoldsFacts(list2[..], start, tp2, out);
    var q := list1[f1].v;
    MonotoneLeft(cmp, list1[..], q, f2, l2, rb);
    b, big := Search(list1, q, f2, l2, 0, big0, cmp);
    SplitFacts(cmp, src, q, f2, l2, 0, b);
    RightStretch(cmp, list1[..], f2, l2, ra, rb, b);
    SortedTail(cmp, rb, b - f2);
    HoldsTail(src, f2, l2, rb, b - f2);
    HoldsTail(src, f1, l1, ra, 1);
    tp2' := CopyBoth(list1, f2, b, f1, list2, start, tp2, l2, out, rb[..b - f2], ra[..1]);
    out', rb' := out + rb[..b - f2] + ra[..1], rb[b - f2..];
    assert ra[..1] == [ra[0]];
    Regroup(out, rb[..b - f2], [ra[0]], Merge(cmp, ra[1..], rb'));
  }

  /**
   Two adjacent runs into the same place of the other array.  `big` says whether stretches have been long
   enough to search by doubling.
   */
  method MergePair<T(!new)>(list1: array<Cell<T>>, list2: array<Cell<T>>, start: nat, l1: nat, l2: nat, big0: bool, cmp: Cmp<T>,
      ghost a: seq<T>, ghost b: seq<T>) returns (big: bool)
    requires TotalPreorder(cmp) && list1 != list2 && list1.Length == list2.Length
    requires Holds(list1[..], start, l1, a) && Holds(list1[..], l1, l2, b) && Sorted(cmp, a) && Sorted(cmp, b)
    modifies list2
    ensures Holds(list2[..], start, l2, Merge(cmp, a, b))
    ensures list2[..start] == old(list2[..start]) && list2[l2..] == old(list2[l2..])
  {
    hide TotalPreorder, Merge, Monotone, SplitPoint;
    var f1, f2, tp2 := start, l1, start;
    big := big0;
    ghost var ra, rb, out: seq<T> := a, b, [];
    while f1 < l1 && f2 < l2
      invariant start <= f1 <= l1 <= f2 <= l2 && tp2 - start == (f1 - start) + (f2 - l1)
      invariant Holds(list1[..], f1, l1, ra) && Holds(list1[..], f2, l2, rb) && Sorted(cmp, ra) && Sorted(cmp, rb)
      invariant Holds(list2[..], start, tp2, out) && out + Merge(cmp, ra, rb) == Merge(cmp, a, b)
      invariant list2[..start] == old(list2[..start]) && list2[l2..] == old(list2[l2..])
    {
      if cmp(list1[f1].v, list1[f2].v) <= 0 {
        f1, tp2, big, out, ra := FromLeft(list1, list2, start, f1, l1, f2, l2, tp2, big, cmp, ra, rb, out);
        f2, rb := f2 + 1, rb[1..];
      } else {
        f2, tp2, big, out, rb := FromRight(list1, list2, start, f1, l1, f2, l2, tp2, big, cmp, ra, rb, out);
        f1, ra := f1 + 1, ra[1..];
      }
    }
    MergeRest(cmp, ra, rb);
    ghost var was := list2[..];
    if f2 < l2 {
      CopyList(list1, f2, l2, list2, tp2);
      HoldsMore(was, list2[..], start, tp2, out, list1[..], f2, l2, rb);
    } else if f1 < l1 {
      CopyList(list1, f1, l1, list2, tp2);
      HoldsMore(was, list2[..], start, tp2, out, list1[..], f1, l1, ra);
    } else {
      assert ra == [] && rb == [] && out + [] == out;
    }
    assert list2[..start] == was[..start] && list2[l2..] == was[l2..];
  }

  lemma MergeRest<T>(cmp: Cmp<T>, a: seq<T>, b: seq<T>)
    requires a == [] || b == []
    ensures Merge(cmp, a, b) == if a == [] then b else a
  {
  }

  // ----- a pass -----

  /**
   Half-way through a pass: the first `j` runs of `w0` have been merged in pairs into the idle array, their
   places in the array hold the links of the merged runs `bs'`, and the rest is as it was.
   */
  ghost predicate PassState<T(!new)>(cmp: Cmp<T>, l1: seq<Cell<T>>, l2: seq<Cell<T>>, w0: seq<T>, bs: seq<nat>, j: nat, bs': seq<nat>) {
    && |l1| == |l2| == |w0| && Bounds(bs, |w0|) && SortedRuns(cmp, w0, bs) && j < |bs| && bs[j] <= |w0|
    && var e := bs[j];
      && Holds(l1, e, |w0|, w0[e..])
      && RestLinked(l2, bs, j)
      && Bounds(bs', e) && Chain(l1, bs') && AllElem(l2[..e])
      && Stable(cmp, w0[..e], Vals(l2[..e])) && SortedRuns(cmp, Vals(l2[..e]), bs')
      && (2 * (|bs'| - 1) == j || (j == |bs| - 1 && 2 * (|bs'| - 1) == j + 1))
  }

  ghost predicate RestLinked<T>(l2: seq<Cell<T>>, bs: seq<nat>, j: nat) {
    forall k :: j <= k < |bs| - 1 ==> bs[k] < |l2| && l2[bs[k]] == Link(bs[k + 1])
  }

  lemma PassStarts<T(!new)>(cmp: Cmp<T>, l1: seq<Cell<T>>, l2: seq<Cell<T>>, v0: seq<T>, bs: seq<nat>)
    requires RunState(cmp, l1, l2, v0, |l1|, bs)
    ensures PassState(cmp, l1, l2, Vals(l1), bs, 0, [0])
  {
    StableRefl<T>(cmp, []);
    assert Vals(l1)[..0] == [] && Vals(l2[..0]) == [];
  }

  lemma BoundsAt(bs: seq<nat>, end: nat, i: nat, j: nat)
    requires Bounds(bs, end) && i <= j < |bs|
    ensures bs[i] <= bs[j] <= end && (i < j ==> bs[i] < bs[j]) && (j < |bs| - 1 ==> bs[j] < end)
    ensures bs[j] == end ==> j == |bs| - 1
  {
  }

  /** The two runs to merge next; the second is empty when their number is odd. */
  lemma PairHeld<T>(cmp: Cmp<T>, l1: seq<Cell<T>>, w0: seq<T>, bs: seq<nat>, j: nat, m: nat, e: nat)
    requires Bounds(bs, |w0|) && SortedRuns(cmp, w0, bs) && j + 1 < |bs| && bs[j] <= |w0| && |l1| == |w0|
    requires m == bs[j + 1] && e == (if j + 2 < |bs| then bs[j + 2] else m)
    requires Holds(l1, bs[j], |w0|, w0[bs[j]..])
    ensures bs[j] < m <= e <= |w0|
    ensures Holds(l1, bs[j], m, w0[bs[j]..m]) && Holds(l1, m, e, w0[m..e])
    ensures Sorted(cmp, w0[bs[j]..m]) && Sorted(cmp, w0[m..e])
  {
    BoundsAt(bs, |w0|, j, j + 1);
    RunIsSorted(cmp, w0, bs[j], m);
    assert SortedRun(cmp, w0, bs[j], bs[j + 1]);
    if j + 2 < |bs| {
      BoundsAt(bs, |w0|, j + 1, j + 2);
      assert SortedRun(cmp, w0, bs[j + 1], bs[j + 2]);
      RunIsSorted(cmp, w0, m, e);
    }
  }

  /** The merged runs and the stable rearrangement grow together. */
  lemma MergedMore<T(!new)>(cmp: Cmp<T>, l2: seq<Cell<T>>, l2': seq<Cell<T>>, w0: seq<T>, f: nat, m: nat, e: nat, bs': seq<nat>)
    requires TotalPreorder(cmp) && |l2| == |l2'| == |w0| && f < m <= e <= |w0| && l2'[..f] == l2[..f]
    requires Bounds(bs', f) && AllElem(l2[..f]) && Stable(cmp, w0[..f], Vals(l2[..f])) && SortedRuns(cmp, Vals(l2[..f]), bs')
    requires Sorted(cmp, w0[f..m]) && Sorted(cmp, w0[m..e]) && Holds(l2', f, e, Merge(cmp, w0[f..m], w0[m..e]))
    ensures AllElem(l2'[..e]) && Stable(cmp, w0[..e], Vals(l2'[..e])) && SortedRuns(cmp, Vals(l2'[..e]), bs' + [e])
  {
    hide TotalPreorder, Merge, Stable, SortedRuns, Bounds, Sorted, Holds;
    ElemsSplit(l2', f, e, Merge(cmp, w0[f..m], w0[m..e]));
    assert w0[..e] == w0[..f] + w0[f..m] + w0[m..e];
    RunsExtended(cmp, w0[..f], Vals(l2[..f]), w0[f..m], w0[m..e], bs', f, e);
  }

  lemma RunsExtended<T(!new)>(cmp: Cmp<T>, a: seq<T>, a': seq<T>, x: seq<T>, y: seq<T>, bs: seq<nat>, f: nat, e: nat)
    requires TotalPreorder(cmp) && |a'| == f < e == f + |x| + |y| && Bounds(bs, f)
    requires Stable(cmp, a, a') && SortedRuns(cmp, a', bs) && Sorted(cmp, x) && Sorted(cmp, y)
    ensures Stable(cmp, a + x + y, a' + Merge(cmp, x, y)) && SortedRuns(cmp, a' + Merge(cmp, x, y), bs + [e])
  {
    hide TotalPreorder, Merge, Stable, SortedRuns, Bounds, Sorted;
    var merged := Merge(cmp, x, y);
    var now := a' + merged;
    MergeStable(cmp, x, y);
    StableCat(cmp, a, a', x + y, merged);
    assert a + (x + y) == a + x + y;
    assert now[f..e] == merged && now[..f] == a';
    RunIsSorted(cmp, now, f, e);
    RunsGrow(cmp, a', now, bs, f, e);
  }

  lemma ElemsSplit<T>(l: seq<Cell<T>>, f: nat, e: nat, w: seq<T>)
    requires f <= e <= |l| && AllElem(l[..f]) && Holds(l, f, e, w)
    ensures AllElem(l[..e]) && Vals(l[..e]) == Vals(l[..f]) + w
  {
    forall i | 0 <= i < e ensures l[i].Elem? && l[..e][i] == l[i] {
      if i < f { assert l[i] == l[..f][i]; }
    }
    var a, b := Vals(l[..e]), Vals(l[..f]) + w;
    forall i | 0 <= i < e ensures a[i] == b[i] {
      if i < f { assert l[i] == l[..f][i]; }
    }
  }

  lemma RunsGrow<T>(cmp: Cmp<T>, w: seq<T>, w': seq<T>, bs: seq<nat>, f: nat, e: nat)
    requires Bounds(bs, f) && |w| == f < e == |w'| && w'[..f] == w && SortedRuns(cmp, w, bs) && SortedRun(cmp, w', f, e)
    ensures SortedRuns(cmp, w', bs + [e])
  {
    hide SortedRun;
    var padded := w + w'[f..];
    assert padded == w';
    forall k | 0 <= k < |bs| - 1 ensures SortedRun(cmp, w', bs[k], bs[k + 1]) {
      assert SortedRun(cmp, w, bs[k], bs[k + 1]);
      BoundsAt(bs, f, k, k + 1);
      RunInPrefix(cmp, w, w', bs[k], bs[k + 1]);
    }
  }

  lemma RunInPrefix<T>(cmp: Cmp<T>, w: seq<T>, w': seq<T>, lo: nat, hi: nat)
    requires hi <= |w| <= |w'| && w'[..|w|] == w && SortedRun(cmp, w, lo, hi)
    ensures SortedRun(cmp, w', lo, hi)
  {
    assert forall i :: 0 <= i < |w| ==> w'[i] == w[i];
  }

  lemma PassFacts<T(!new)>(cmp: Cmp<T>, l1: seq<Cell<T>>, l2: seq<Cell<T>>, w0: seq<T>, bs: seq<nat>, j: nat, bs': seq<nat>)
    requires PassState(cmp, l1, l2, w0, bs, j, bs')
    ensures |l1| == |l2| == |w0| && Bounds(bs, |w0|) && SortedRuns(cmp, w0, bs) && j < |bs| && bs[j] <= |w0|
    ensures Holds(l1, bs[j], |w0|, w0[bs[j]..]) && RestLinked(l2, bs, j) && Bounds(bs', bs[j]) && Chain(l1, bs')
    ensures AllElem(l2[..bs[j]]) && Stable(cmp, w0[..bs[j]], Vals(l2[..bs[j]])) && SortedRuns(cmp, Vals(l2[..bs[j]]), bs')
    ensures 2 * (|bs'| - 1) == j || (j == |bs| - 1 && 2 * (|bs'| - 1) == j + 1)
    ensures bs[j] == |w0| <==> j == |bs| - 1
    ensures j < |bs| - 1 ==> l2[bs[j]] == Link(bs[j + 1]) && bs[j] < bs[j + 1] <= |w0|
    ensures j < |bs| - 2 ==> l2[bs[j + 1]] == Link(bs[j + 2]) && bs[j + 1] < bs[j + 2] <= |w0|
    ensures j < |bs| - 1 ==> (bs[j + 1] == |w0| <==> j + 1 == |bs| - 1)
  {
    hide Stable, SortedRuns, Chain, SortedRun;
    BoundsAt(bs, |w0|, j, j);
    if j < |bs| - 1 {
      BoundsAt(bs, |w0|, j, j + 1);
      if j < |bs| - 2 {
        BoundsAt(bs, |w0|, j + 1, j + 2);
      }
    }
  }

  lemma RestKept<T>(l2: seq<Cell<T>>, l2': seq<Cell<T>>, bs: seq<nat>, end: nat, j: nat, j': nat)
    requires Bounds(bs, end) && j <= j' < |bs| && end == |l2| == |l2'| && l2'[bs[j']..] == l2[bs[j']..] && RestLinked(l2, bs, j)
    ensures RestLinked(l2', bs, j')
  {
    forall k | j' <= k < |bs| - 1 ensures bs[k] < |l2'| && l2'[bs[k]] == Link(bs[k + 1]) {
      BoundsAt(bs, end, j', k);
      assert l2'[bs[k]] == l2'[bs[j']..][bs[k] - bs[j']] == l2[bs[j']..][bs[k] - bs[j']];
    }
  }

  lemma HoldsOutside<T>(l1: seq<Cell<T>>, w0: seq<T>, f: nat, e: nat, c: Cell<T>)
    requires |l1| == |w0| && f < e <= |w0| && Holds(l1, f, |w0|, w0[f..])
    ensures Holds(l1[f := c], e, |w0|, w0[e..])
  {
    assert w0[f..][e - f..] == w0[e..];
    HoldsTail(l1, f, |w0|, w0[f..], e - f);
  }

  /** One more merged run: the merge in the idle array, its link in the place the pair has left. */
  lemma PassStep<T(!new)>(cmp: Cmp<T>, l1: seq<Cell<T>>, l2: seq<Cell<T>>, l2': seq<Cell<T>>, w0: seq<T>, bs: seq<nat>, j: nat, j': nat, bs': seq<nat>)
    requires TotalPreorder(cmp) && PassState(cmp, l1, l2, w0, bs, j, bs') && j + 1 < |bs| && |l2'| == |l2|
    requires j' == if j + 2 < |bs| then j + 2 else j + 1
    requires bs[j] < bs[j + 1] <= bs[j'] <= |w0| && l2'[..bs[j]] == l2[..bs[j]] && l2'[bs[j']..] == l2[bs[j']..]
    requires Holds(l2', bs[j], bs[j'], Merge(cmp, w0[bs[j]..bs[j + 1]], w0[bs[j + 1]..bs[j']]))
    ensures PassState(cmp, l1[bs[j] := Link(bs[j'])], l2', w0, bs, j', bs' + [bs[j']])
  {
    hide TotalPreorder, Merge, Stable, SortedRuns, Bounds, Chain, Holds, Sorted, PassState, RestLinked;
    var f, m, e := bs[j], bs[j + 1], bs[j'];
    PassFacts(cmp, l1, l2, w0, bs, j, bs');
    PairHeld(cmp, l1, w0, bs, j, m, e);
    MergedMore(cmp, l2, l2', w0, f, m, e, bs');
    BoundsMore(bs', f, e);
    ChainMore(l1, bs', f, e);
    RestKept(l2, l2', bs, |w0|, j, j');
    HoldsOutside(l1, w0, f, e, Link(e));
    Assembled(cmp, l1[f := Link(e)], l2', w0, bs, j', bs' + [e]);
  }

  lemma Assembled<T(!new)>(cmp: Cmp<T>, l1: seq<Cell<T>>, l2: seq<Cell<T>>, w0: seq<T>, bs: seq<nat>, j: nat, bs': seq<nat>)
    requires |l1| == |l2| == |w0| && Bounds(bs, |w0|) && SortedRuns(cmp, w0, bs) && j < |bs| && bs[j] <= |w0|
    requires Holds(l1, bs[j], |w0|, w0[bs[j]..]) && RestLinked(l2, bs, j) && Bounds(bs', bs[j]) && Chain(l1, bs')
    requires AllElem(l2[..bs[j]]) && Stable(cmp, w0[..bs[j]], Vals(l2[..bs[j]])) && SortedRuns(cmp, Vals(l2[..bs[j]]), bs')
    requires 2 * (|bs'| - 1) == j || (j == |bs| - 1 && 2 * (|bs'| - 1) == j + 1)
    ensures PassState(cmp, l1, l2, w0, bs, j, bs')
  {
    hide Stable, SortedRuns, Chain, Bounds, Holds;
  }

  lemma PassEnds<T(!new)>(cmp: Cmp<T>, l1: seq<Cell<T>>, l2: seq<Cell<T>>, v0: seq<T>, w0: seq<T>, bs: seq<nat>, bs': seq<nat>)
    requires |bs| > 2 && PassState(cmp, l1, l2, w0, bs, |bs| - 1, bs') && Stable(cmp, v0, w0) && |v0| == |w0|
    ensures RunState(cmp, l2, l1, v0, |l1|, bs') && |bs'| < |bs|
  {
    hide SortedRuns, Chain, SortedRun, Bounds;
    PassFacts(cmp, l1, l2, w0, bs, |bs| - 1, bs');
    assert bs[|bs| - 1] == |w0|;
    assert w0[..|w0|] == w0 && l2[..|w0|] == l2;
    StableTrans(cmp, v0, w0, Vals(l2));
  }

  /** One pass: the runs merged in pairs from `list1` into `list2`, their links written into `list1`. */
  method MergePass<T(!new)>(list1: array<Cell<T>>, list2: array<Cell<T>>, big0: bool, cmp: Cmp<T>, ghost v0: seq<T>, ghost bs: seq<nat>)
    returns (big: bool, ghost bs': seq<nat>)
    requires TotalPreorder(cmp) && list1 != list2 && list1.Length == list2.Length && |bs| > 2
    requires RunState(cmp, list1[..], list2[..], v0, list1.Length, bs)
    modifies list1, list2
    ensures RunState(cmp, list2[..], list1[..], v0, list1.Length, bs') && |bs'| < |bs|
  {
    hide TotalPreorder, Merge, Stable, Sorted, SortedRuns, Bounds, Chain, Holds, PassState, RestLinked;
    var last := list1.Length;
    ghost var w0, j := Vals(list1[..]), 0;
    PassStarts(cmp, list1[..], list2[..], v0, bs);
    bs', big := [0], big0;
    var l2, p1, p2 := 0, 0, 0;
    PassFacts(cmp, list1[..], list2[..], w0, bs, j, bs');
    assert bs[0] == 0 by { BoundsZero(bs, last); }
    while p2 != last
      invariant PassState(cmp, list1[..], list2[..], w0, bs, j, bs') && j < |bs| && p2 == bs[j] == l2 == p1
      decreases |bs| - j
    {
      PassFacts(cmp, list1[..], list2[..], w0, bs, j, bs');
      ghost var c1, c2 := list1[..], list2[..];
      p2 := list2[p2].next;
      var f1, l1 := l2, p2;
      if p2 != last {
        p2 := list2[p2].next;
      }
      l2 := p2;
      ghost var j' := if j + 2 < |bs| then j + 2 else j + 1;
      PairHeld(cmp, c1, w0, bs, j, l1, l2);
      big := MergePair(list1, list2, f1, l1, l2, big, cmp, w0[f1..l1], w0[l1..l2]);
      PassStep(cmp, c1, c2, list2[..], w0, bs, j, j', bs');
      list1[p1] := Link(l2);
      assert list1[..] == c1[f1 := Link(l2)];
      bs', j, p1 := bs' + [l2], j', l2;
    }
    PassFacts(cmp, list1[..], list2[..], w0, bs, j, bs');
    PassEnds(cmp, list1[..], list2[..], v0, w0, bs, bs');
  }

  lemma BoundsZero(bs: seq<nat>, end: nat)
    requires Bounds(bs, end)
    ensures bs != [] && bs[0] == 0
  {
  }

  // ----- mergesort -----

  const PSIZE := 8

  /** One run is a sorted array. */
  lemma OneRun<T(!new)>(cmp: Cmp<T>, l1: seq<Cell<T>>, l2: seq<Cell<T>>, v0: seq<T>, bs: seq<nat>)
    requires RunState(cmp, l1, l2, v0, |l1|, bs) && |l1| > 0
    ensures l2[0].Link? && (l2[0].next == |l1| <==> |bs| == 2)
    ensures |bs| == 2 ==> Sorted(cmp, Vals(l1)) && Stable(cmp, v0, Vals(l1))
    ensures |bs| >= 2
  {
    hide Stable;
    assert |bs| >= 2;
    assert l2[bs[0]] == Link(bs[1]);
    if |bs| == 2 {
      assert SortedRun(cmp, Vals(l1), bs[0], bs[1]);
      assert Vals(l1)[0..|l1|] == Vals(l1);
      RunIsSorted(cmp, Vals(l1), 0, |l1|);
    } else {
      assert bs[1] < bs[|bs| - 1];
    }
  }

  /**
   The array sorted, equal elements in their old order; elements too small to hold a link are refused.
   By `StableUnique` no other result is possible.
   */
  method Mergesort<T(!new)>(base: array<Cell<T>>, size: nat, cmp: Cmp<T>) returns (r: int)
    requires TotalPreorder(cmp) && AllElem(base[..])
    modifies base
    ensures AllElem(base[..])
    ensures r == if size < PSIZE / 2 then -1 else 0
    ensures r == 0 ==> Sorted(cmp, Vals(base[..])) && Stable(cmp, old(Vals(base[..])), Vals(base[..]))
    ensures r == -1 ==> base[..] == old(base[..])
  {
    hide TotalPreorder, Stable, Sorted, RunState;
    if size < PSIZE / 2 {
      return -1;
    }
    if base.Length == 0 {
      NothingToSort(cmp, Vals(base[..]));
      return 0;
    }
    ghost var v0 := Vals(base[..]);
    var list1, list2 := base, new Cell<T>[base.Length](_ => Link(0));
    var mine := list2;
    ghost var bs := Setup(list1, list2, cmp);
    var big := false;
    OneRun(cmp, list1[..], list2[..], v0, bs);
    while list2[0].next != base.Length
      invariant list1.Length == list2.Length == base.Length && list1 != list2
      invariant (list1 == base && list2 == mine) || (list1 == mine && list2 == base)
      invariant RunState(cmp, list1[..], list2[..], v0, base.Length, bs)
      invariant list2[0].Link? && (list2[0].next == base.Length <==> |bs| == 2) && |bs| >= 2
      decreases |bs|
    {
      big, bs := MergePass(list1, list2, big, cmp, v0, bs);
      list1, list2 := list2, list1;
      OneRun(cmp, list1[..], list2[..], v0, bs);
    }
    OneRun(cmp, list1[..], list2[..], v0, bs);
    assert AllElem(list1[..]) by { RunElems(cmp, list1[..], list2[..], v0, bs); }
    if base == list2 {
      CopyList(list1, 0, list1.Length, list2, 0);
      assert base[..] == list1[..];
    }
    return 0;
  }

  lemma RunElems<T(!new)>(cmp: Cmp<T>, l1: seq<Cell<T>>, l2: seq<Cell<T>>, v0: seq<T>, bs: seq<nat>)
    requires RunState(cmp, l1, l2, v0, |l1|, bs)
    ensures AllElem(l1)
  {
  }

  lemma NothingToSort<T(!new)>(cmp: Cmp<T>, s: seq<T>)
    requires s == []
    ensures Sorted(cmp, s) && Stable(cmp, s, s)
  {
    StableRefl(cmp, s);
  }
}
