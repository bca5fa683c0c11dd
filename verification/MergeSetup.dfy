/**
 The first pass of `mergesort`: the runs it finds or makes in the array, and the list of their ends,
 kept in the idle array at the place of each run's first element.
 */
module MergeSetup {
  import opened Ordering

  const THRESHOLD := 16

  /** One element's place: an element, or in the idle array the start of the next run. */
  datatype Cell<T> = Elem(v: T) | Link(next: nat)

  predicate AllElem<T>(s: seq<Cell<T>>) {
    forall i :: 0 <= i < |s| ==> s[i].Elem?
  }

  function Vals<T>(s: seq<Cell<T>>): (r: seq<T>)
    requires AllElem(s)
    ensures |r| == |s| && forall i :: 0 <= i < |s| ==> r[i] == s[i].v
  {
    seq(|s|, i requires 0 <= i < |s| && s[i].Elem? => s[i].v)
  }

  // ----- runs -----

  ghost predicate Bounds(bs: seq<nat>, end: nat) {
    && bs != [] && bs[0] == 0 && bs[|bs| - 1] == end
    && forall i, j :: 0 <= i < j < |bs| ==> bs[i] < bs[j]
  }

  ghost predicate SortedRun<T>(cmp: Cmp<T>, w: seq<T>, lo: nat, hi: nat) {
    forall i, j :: lo <= i < j < hi && j < |w| ==> cmp(w[i], w[j]) <= 0
  }

  ghost predicate SortedRuns<T>(cmp: Cmp<T>, w: seq<T>, bs: seq<nat>) {
    forall k :: 0 <= k < |bs| - 1 ==> SortedRun(cmp, w, bs[k], bs[k + 1])
  }

  ghost predicate Chain<T>(links: seq<Cell<T>>, bs: seq<nat>) {
    forall k :: 0 <= k < |bs| - 1 ==> bs[k] < |links| && links[bs[k]] == Link(bs[k + 1])
  }

  /** Runs with their links up to `f`; `v0` rearranged in a stable way so far, and from `f` on untouched. */
  ghost predicate RunState<T(!new)>(cmp: Cmp<T>, l1: seq<Cell<T>>, l2: seq<Cell<T>>, v0: seq<T>, f: nat, bs: seq<nat>) {
    && AllElem(l1) && f <= |l1| == |v0| && |l2| == |l1|
    && Stable(cmp, v0, Vals(l1)) && Vals(l1)[f..] == v0[f..]
    && Bounds(bs, f) && Chain(l2, bs) && SortedRuns(cmp, Vals(l1), bs)
  }

  lemma NoRuns<T(!new)>(cmp: Cmp<T>, l1: seq<Cell<T>>, l2: seq<Cell<T>>)
    requires AllElem(l1) && |l2| == |l1|
    ensures RunState(cmp, l1, l2, Vals(l1), 0, [0])
  {
    StableRefl(cmp, Vals(l1));
  }

  lemma BoundsMore(bs: seq<nat>, f: nat, f': nat)
    requires Bounds(bs, f) && f < f'
    ensures Bounds(bs + [f'], f')
    ensures forall i :: 0 <= i < |bs| ==> bs[i] <= f
  {
    assert forall i :: 0 <= i < |bs| - 1 ==> bs[i] < bs[|bs| - 1];
  }

  lemma ChainMore<T>(l2: seq<Cell<T>>, bs: seq<nat>, f: nat, f': nat)
    requires Bounds(bs, f) && Chain(l2, bs) && f < f' <= |l2|
    ensures Chain(l2[f := Link(f')], bs + [f'])
  {
    BoundsMore(bs, f, f');
    var l2', bs' := l2[f := Link(f')], bs + [f'];
    forall k | 0 <= k < |bs'| - 1 ensures bs'[k] < |l2'| && l2'[bs'[k]] == Link(bs'[k + 1]) {
      if k < |bs| - 1 {
        assert bs[k] < bs[|bs| - 1];
        assert l2[bs[k]] == Link(bs[k + 1]);
      }
    }
  }

  lemma RunsMore<T>(cmp: Cmp<T>, w: seq<T>, w': seq<T>, bs: seq<nat>, f: nat, f': nat)
    requires Bounds(bs, f) && SortedRuns(cmp, w, bs) && f < f' <= |w| == |w'| && w'[..f] == w[..f]
    requires SortedRun(cmp, w', f, f')
    ensures SortedRuns(cmp, w', bs + [f'])
  {
    BoundsMore(bs, f, f');
    var bs' := bs + [f'];
    forall k | 0 <= k < |bs'| - 1 ensures SortedRun(cmp, w', bs'[k], bs'[k + 1]) {
      if k < |bs| - 1 {
        assert SortedRun(cmp, w, bs[k], bs[k + 1]);
        forall i, j | bs[k] <= i < j < bs[k + 1] ensures cmp(w'[i], w'[j]) <= 0 {
          assert w'[..f][i] == w[..f][i] && w'[..f][j] == w[..f][j];
        }
      }
    }
  }

  lemma ValsOutside<T>(l1: seq<Cell<T>>, l1': seq<Cell<T>>, f: nat, f': nat)
    requires AllElem(l1) && AllElem(l1') && f <= f' <= |l1| == |l1'| && l1'[..f] == l1[..f] && l1'[f'..] == l1[f'..]
    ensures Vals(l1')[..f] == Vals(l1)[..f] && Vals(l1')[f'..] == Vals(l1)[f'..]
  {
    assert forall i :: 0 <= i < f ==> l1'[..f][i] == l1[..f][i];
    assert forall i :: 0 <= i < |l1| - f' ==> l1'[f'..][i] == l1[f'..][i];
  }

  /** One more run, from `f` to `f'`, and the link to its end. */
  lemma NextRun<T(!new)>(cmp: Cmp<T>, l1: seq<Cell<T>>, l1': seq<Cell<T>>, l2: seq<Cell<T>>, v0: seq<T>, f: nat, f': nat, bs: seq<nat>)
    requires RunState(cmp, l1, l2, v0, f, bs) && f < f' <= |l1| == |l1'| && AllElem(l1')
    requires l1'[..f] == l1[..f] && l1'[f'..] == l1[f'..]
    requires Stable(cmp, Vals(l1)[f..f'], Vals(l1')[f..f']) && SortedRun(cmp, Vals(l1'), f, f')
    ensures RunState(cmp, l1', l2[f := Link(f')], v0, f', bs + [f'])
  {
    hide Stable, Sorted, SortedRun, SortedRuns, Chain, Bounds;
    var w, w' := Vals(l1), Vals(l1');
    ValsOutside(l1, l1', f, f');
    StableInside(cmp, w, f, f', w'[f..f']);
    assert w' == w[..f] + w'[f..f'] + w[f'..];
    StableTrans(cmp, v0, w, w');
    assert w[f'..] == v0[f'..] by { assert w[f..][f' - f..] == v0[f..][f' - f..]; }
    BoundsMore(bs, f, f');
    ChainMore(l2, bs, f, f');
    RunsMore(cmp, w, w', bs, f, f');
  }

  // ----- consecutive elements -----

  /** Neighbours in order make a run. */
  lemma {:induction false} Neighbours<T(!new)>(cmp: Cmp<T>, w: seq<T>, lo: nat, hi: nat)
    requires TotalPreorder(cmp) && hi <= |w| && forall i :: lo < i < hi ==> cmp(w[i - 1], w[i]) <= 0
    ensures SortedRun(cmp, w, lo, hi)
    decreases hi
  {
    hide TotalPreorder;
    if lo < hi {
      Neighbours(cmp, w, lo, hi - 1);
      forall i | lo <= i < hi - 1 ensures cmp(w[i], w[hi - 1]) <= 0 {
        assert cmp(w[hi - 2], w[hi - 1]) <= 0;
        if i < hi - 2 {
          Trans(cmp, w[i], w[hi - 2], w[hi - 1]);
        }
      }
    }
  }

  lemma {:induction false} FallingNeighbours<T(!new)>(cmp: Cmp<T>, w: seq<T>, lo: nat, hi: nat)
    requires TotalPreorder(cmp) && lo <= hi <= |w| && forall i :: lo < i < hi ==> cmp(w[i - 1], w[i]) > 0
    ensures Descending(cmp, w[lo..hi])
    decreases hi
  {
    hide TotalPreorder;
    if lo < hi {
      FallingNeighbours(cmp, w, lo, hi - 1);
      var s := w[lo..hi];
      assert s[..|s| - 1] == w[lo..hi - 1];
      forall i | 0 <= i < |s| - 1 ensures cmp(s[i], s[|s| - 1]) > 0 {
        assert cmp(w[hi - 2], w[hi - 1]) > 0;
        if i < |s| - 2 {
          assert w[lo..hi - 1][i] == s[i] && w[lo..hi - 1][|s| - 2] == s[|s| - 2];
          TransStrict(cmp, s[i], s[|s| - 2], s[|s| - 1]);
        }
      }
      forall i, j | 0 <= i < j < |s| ensures cmp(s[i], s[j]) > 0 {
        if j < |s| - 1 {
          assert cmp(w[lo..hi - 1][i], w[lo..hi - 1][j]) > 0;
        }
      }
    }
  }

  lemma Trans<T(!new)>(cmp: Cmp<T>, x: T, y: T, z: T)
    requires TotalPreorder(cmp) && cmp(x, y) <= 0 && cmp(y, z) <= 0
    ensures cmp(x, z) <= 0
  {
  }

  lemma TransStrict<T(!new)>(cmp: Cmp<T>, x: T, y: T, z: T)
    requires TotalPreorder(cmp) && cmp(x, y) > 0 && cmp(y, z) > 0
    ensures cmp(x, z) > 0
  {
    Flip(cmp, x, y);
    Flip(cmp, y, z);
    Flip(cmp, z, x);
  }

  lemma RunIsSorted<T>(cmp: Cmp<T>, w: seq<T>, lo: nat, hi: nat)
    requires lo <= hi <= |w|
    ensures SortedRun(cmp, w, lo, hi) <==> Sorted(cmp, w[lo..hi])
  {
    var s := w[lo..hi];
    if Sorted(cmp, s) {
      forall i, j | lo <= i < j < hi ensures cmp(w[i], w[j]) <= 0 {
        assert cmp(s[i - lo], s[j - lo]) <= 0;
      }
    }
  }

  /** Exchanging two neighbours that are out of order. */
  lemma SwapStable<T(!new)>(cmp: Cmp<T>, s: seq<T>, u: nat)
    requires TotalPreorder(cmp) && u + 1 < |s| && cmp(s[u], s[u + 1]) > 0
    ensures Stable(cmp, s, s[u := s[u + 1]][u + 1 := s[u]])
    ensures Stable(cmp, s[u..u + 2], [s[u + 1], s[u]])
  {
    hide TotalPreorder, Stable;
    var two := s[u..u + 2];
    assert two == [s[u], s[u + 1]];
    ReverseDescending(cmp, two);
    assert Reverse(two) == [s[u + 1], s[u]];
    StableInside(cmp, s, u, u + 2, [s[u + 1], s[u]]);
    assert s[u := s[u + 1]][u + 1 := s[u]] == s[..u] + [s[u + 1], s[u]] + s[u + 2..];
  }

  // ----- insertion sort -----

  /** Elements lo..hi in order, but for where the one at `t` stands. */
  ghost predicate SortedBut<T>(cmp: Cmp<T>, w: seq<T>, lo: nat, hi: nat, t: nat) {
    forall i, j :: lo <= i < j < hi && j < |w| && j != t ==> cmp(w[i], w[j]) <= 0
  }

  lemma SwapBack<T(!new)>(cmp: Cmp<T>, w: seq<T>, lo: nat, hi: nat, t: nat)
    requires TotalPreorder(cmp) && lo < t < hi <= |w| && SortedBut(cmp, w, lo, hi, t) && cmp(w[t - 1], w[t]) > 0
    ensures SortedBut(cmp, w[t - 1 := w[t]][t := w[t - 1]], lo, hi, t - 1)
  {
    hide TotalPreorder;
    var w' := w[t - 1 := w[t]][t := w[t - 1]];
    forall i, j | lo <= i < j < hi && j != t - 1 ensures cmp(w'[i], w'[j]) <= 0 {
      if i == t - 1 && j == t {
        Flip(cmp, w[t - 1], w[t]);
      } else if j == t {
        assert cmp(w[i], w[t - 1]) <= 0;
      } else if i == t - 1 {
        assert cmp(w[t], w[j]) <= 0;
      } else if i == t {
        assert cmp(w[t - 1], w[j]) <= 0;
      }
    }
  }

  lemma SiftDone<T(!new)>(cmp: Cmp<T>, w: seq<T>, lo: nat, hi: nat, t: nat)
    requires TotalPreorder(cmp) && lo <= t < hi <= |w| && SortedBut(cmp, w, lo, hi, t)
    requires t > lo ==> cmp(w[t - 1], w[t]) <= 0
    ensures SortedRun(cmp, w, lo, hi)
  {
    hide TotalPreorder;
    forall i | lo <= i < t ensures cmp(w[i], w[t]) <= 0 {
      if i < t - 1 {
        assert cmp(w[i], w[t - 1]) <= 0;
        Trans(cmp, w[i], w[t - 1], w[t]);
      }
    }
  }

  lemma SwapInside<T(!new)>(cmp: Cmp<T>, w0: seq<T>, w: seq<T>, lo: nat, hi: nat, t: nat)
    requires TotalPreorder(cmp) && lo < t < hi <= |w| == |w0| && Stable(cmp, w0[lo..hi], w[lo..hi]) && cmp(w[t - 1], w[t]) > 0
    ensures Stable(cmp, w0[lo..hi], w[t - 1 := w[t]][t := w[t - 1]][lo..hi])
  {
    hide TotalPreorder, Stable;
    var s, u := w[lo..hi], t - 1 - lo;
    SwapStable(cmp, s, u);
    assert w[t - 1 := w[t]][t := w[t - 1]][lo..hi] == s[u := s[u + 1]][u + 1 := s[u]];
    StableTrans(cmp, w0[lo..hi], s, s[u := s[u + 1]][u + 1 := s[u]]);
  }

  lemma ValsSwap<T>(s: seq<Cell<T>>, i: nat, j: nat)
    requires AllElem(s) && i < |s| && j < |s|
    ensures AllElem(s[i := s[j]][j := s[i]]) && Vals(s[i := s[j]][j := s[i]]) == Vals(s)[i := s[j].v][j := s[i].v]
  {
  }

  /** `insertionsort` on the elements lo..lo+n. */
  method InsertionSort<T(!new)>(a: array<Cell<T>>, lo: nat, n: nat, cmp: Cmp<T>)
    requires TotalPreorder(cmp) && n >= 1 && lo + n <= a.Length && AllElem(a[..])
    modifies a
    ensures AllElem(a[..]) && a[..lo] == old(a[..lo]) && a[lo + n..] == old(a[lo + n..])
    ensures Stable(cmp, old(Vals(a[..]))[lo..lo + n], Vals(a[..])[lo..lo + n])
    ensures SortedRun(cmp, Vals(a[..]), lo, lo + n)
  {
    hide TotalPreorder, Stable, SortedBut;
    ghost var w0, hi := Vals(a[..]), lo + n;
    StableRefl(cmp, w0[lo..hi]);
    var ai, left := lo + 1, n - 1;
    while left >= 1
      invariant ai + left == hi && lo < ai
      invariant AllElem(a[..]) && a[..lo] == old(a[..lo]) && a[hi..] == old(a[hi..])
      invariant Stable(cmp, w0[lo..hi], Vals(a[..])[lo..hi]) && SortedRun(cmp, Vals(a[..]), lo, ai)
    {
      var t := ai;
      SiftStart(cmp, Vals(a[..]), lo, ai);
      while t > lo
        invariant lo <= t <= ai < hi
        invariant AllElem(a[..]) && a[..lo] == old(a[..lo]) && a[hi..] == old(a[hi..])
        invariant Stable(cmp, w0[lo..hi], Vals(a[..])[lo..hi]) && SortedBut(cmp, Vals(a[..]), lo, ai + 1, t)
      {
        var u := t - 1;
        if cmp(a[u].v, a[t].v) <= 0 {
          break;
        }
        SwapBack(cmp, Vals(a[..]), lo, ai + 1, t);
        SwapInside(cmp, w0, Vals(a[..]), lo, hi, t);
        ValsSwap(a[..], u, t);
        ghost var before := a[..];
        a[u], a[t] := a[t], a[u];
        assert a[..] == before[u := before[t]][t := before[u]];
        t := u;
      }
      SiftDone(cmp, Vals(a[..]), lo, ai + 1, t);
      ai := ai + 1;
      left := left - 1;
    }
  }

  lemma SiftStart<T>(cmp: Cmp<T>, w: seq<T>, lo: nat, ai: nat)
    requires SortedRun(cmp, w, lo, ai)
    ensures SortedBut(cmp, w, lo, ai + 1, ai)
  {
  }

  /** The `reverse` macro: elements bot..top, both included. */
  method ReverseCells<T>(a: array<Cell<T>>, bot: nat, top: nat)
    requires bot < top < a.Length
    modifies a
    ensures a[..bot] == old(a[..bot]) && a[top + 1..] == old(a[top + 1..])
    ensures a[bot..top + 1] == Reverse(old(a[bot..top + 1]))
  {
    hide Reverse;
    ghost var was := a[..];
    var b, s := bot, top;
    a[b], a[s] := a[s], a[b];
    b, s := b + 1, s - 1;
    while b < s
      invariant bot <= b <= s + 2 && b - bot == top - s && s <= top
      invariant forall k :: bot <= k < b || s < k <= top ==> a[k] == was[bot + top - k]
      invariant forall k :: 0 <= k < bot || top < k < a.Length || b <= k <= s ==> a[k] == was[k]
    {
      a[b], a[s] := a[s], a[b];
      b, s := b + 1, s - 1;
    }
    assert forall k :: bot <= k <= top ==> a[k] == was[bot + top - k];
    ghost var now, back := a[bot..top + 1], Reverse(was[bot..top + 1]);
    assert |now| == |back|;
    forall i | 0 <= i < |now| ensures now[i] == back[i] {
      assert a[bot + i] == was[top - i];
    }
  }

  // ----- the first pass -----

  /** Neighbours all in order, or all strictly out of order. */
  ghost predicate OneSense<T>(cmp: Cmp<T>, w: seq<T>, lo: nat, hi: nat, sense: bool) {
    forall i :: lo < i < hi && i < |w| ==> (cmp(w[i - 1], w[i]) > 0) == sense
  }

  /** Every pair from `lo` on has the same sense. */
  ghost predicate PairSense<T>(cmp: Cmp<T>, w: seq<T>, lo: nat, hi: nat, sense: bool) {
    forall k :: lo <= k < hi && k + 1 < |w| && (k - lo) % 2 == 0 ==> (cmp(w[k], w[k + 1]) > 0) == sense
  }

  lemma ValsReverse<T>(s: seq<Cell<T>>)
    requires AllElem(s)
    ensures AllElem(Reverse(s)) && Vals(Reverse(s)) == Reverse(Vals(s))
  {
  }

  lemma ValsSlice<T>(s: seq<Cell<T>>, i: nat, j: nat)
    requires AllElem(s) && i <= j <= |s|
    ensures AllElem(s[i..j]) && Vals(s[i..j]) == Vals(s)[i..j]
  {
  }

  lemma ThreeParts<T>(s: seq<Cell<T>>, t: seq<Cell<T>>, i: nat, j: nat)
    requires AllElem(s) && |s| == |t| && i <= j <= |s| && t[..i] == s[..i] && t[j..] == s[j..] && AllElem(t[i..j])
    ensures AllElem(t)
  {
    forall k | 0 <= k < |t| ensures t[k].Elem? {
      if k < i {
        assert t[k] == t[..i][k] == s[..i][k];
      } else if k < j {
        assert t[k] == t[i..j][k - i];
      } else {
        assert t[k] == t[j..][k - j] == s[j..][k - j];
      }
    }
  }

  /** Turn a run of one sense into an ascending one. */
  method MakeRun<T(!new)>(list1: array<Cell<T>>, f1: nat, f2: nat, sense: bool, cmp: Cmp<T>)
    requires TotalPreorder(cmp) && AllElem(list1[..]) && f1 + 2 <= f2 <= list1.Length
    requires OneSense(cmp, Vals(list1[..]), f1, f2, sense)
    modifies list1
    ensures AllElem(list1[..]) && list1[..f1] == old(list1[..f1]) && list1[f2..] == old(list1[f2..])
    ensures Stable(cmp, old(Vals(list1[..]))[f1..f2], Vals(list1[..])[f1..f2]) && SortedRun(cmp, Vals(list1[..]), f1, f2)
  {
    hide TotalPreorder, Stable, Reverse;
    ghost var was := list1[..];
    ghost var w := Vals(was);
    if sense {
      FallingNeighbours(cmp, w, f1, f2);
      ReverseDescending(cmp, w[f1..f2]);
      ValsSlice(was, f1, f2);
      ReverseCells(list1, f1, f2 - 1);
      ValsReverse(was[f1..f2]);
      assert list1[..][f1..f2] == list1[f1..f2] && was[f1..f2] == old(list1[f1..f2]);
      ThreeParts(was, list1[..], f1, f2);
      ValsSlice(list1[..], f1, f2);
      RunIsSorted(cmp, Vals(list1[..]), f1, f2);
    } else {
      Neighbours(cmp, w, f1, f2);
      StableRefl(cmp, w[f1..f2]);
    }
  }

  /** Short stretches: every pair becomes a run. */
  method PairRuns<T(!new)>(list1: array<Cell<T>>, list2: array<Cell<T>>, start: nat, f2: nat, sense: bool, cmp: Cmp<T>,
      ghost v0: seq<T>, ghost bs0: seq<nat>) returns (p2: nat, ghost bs: seq<nat>)
    requires TotalPreorder(cmp) && list1 != list2 && start + 2 <= f2 <= list1.Length && (f2 - start) % 2 == 0
    requires RunState(cmp, list1[..], list2[..], v0, start, bs0) && PairSense(cmp, v0, start, f2, sense)
    modifies list1, list2
    ensures p2 == f2 && RunState(cmp, list1[..], list2[..], v0, f2, bs) && list2[f2..] == old(list2[f2..])
  {
    hide TotalPreorder, Stable, Bounds, Chain, SortedRun, SortedRuns;
    var f1 := start;
    bs, p2 := bs0, start;
    while f1 < f2
      invariant start <= f1 <= f2 && (f1 - start) % 2 == 0 && p2 == f1
      invariant RunState(cmp, list1[..], list2[..], v0, f1, bs) && list2[f2..] == old(list2[f2..])
    {
      ghost var l1, l2, w := list1[..], list2[..], Vals(list1[..]);
      assert w[f1..][0] == v0[f1..][0] && w[f1..][1] == v0[f1..][1];
      list2[p2] := Link(f1 + 2);
      p2 := f1 + 2;
      ghost var two := w[f1..f1 + 2];
      if sense {
        SwapStable(cmp, w, f1);
        Flip(cmp, w[f1], w[f1 + 1]);
        ValsSwap(l1, f1, f1 + 1);
        list1[f1], list1[f1 + 1] := list1[f1 + 1], list1[f1];
        assert list1[..] == l1[f1 := l1[f1 + 1]][f1 + 1 := l1[f1]];
        assert Vals(list1[..])[f1..f1 + 2] == [w[f1 + 1], w[f1]];
      } else {
        StableRefl(cmp, two);
      }
      Neighbours(cmp, Vals(list1[..]), f1, f1 + 2);
      NextRun(cmp, l1, list1[..], l2, v0, f1, f1 + 2, bs);
      assert list2[..] == l2[f1 := Link(f1 + 2)];
      bs := bs + [f1 + 2];
      f1 := f1 + 2;
    }
  }

  /** A stretch joined to the sorted tail behind it. */
  lemma JoinTail<T(!new)>(cmp: Cmp<T>, w: seq<T>, f1: nat, last: nat)
    requires TotalPreorder(cmp) && f1 < last < |w| && SortedRun(cmp, w, f1, last) && SortedRun(cmp, w, last, |w|)
    requires cmp(w[last - 1], w[last]) <= 0
    ensures SortedRun(cmp, w, f1, |w|)
  {
    hide TotalPreorder;
    Neighbours(cmp, w, f1, |w|);
  }

  lemma TailKept<T>(w: seq<T>, v0: seq<T>, f: nat, last: nat, cmp: Cmp<T>)
    requires f <= last <= |w| == |v0| && w[f..] == v0[f..] && SortedRun(cmp, v0, last, |v0|)
    ensures SortedRun(cmp, w, last, |w|) && w[last..] == v0[last..]
  {
    forall i | last <= i < |w| ensures w[i] == v0[i] {
      assert w[i] == w[f..][i - f] && v0[i] == v0[f..][i - f];
    }
  }

  /** What has not been touched yet still has one sense. */
  lemma SenseKept<T>(cmp: Cmp<T>, w: seq<T>, v0: seq<T>, f: nat, f2: nat, sense: bool)
    requires f <= f2 <= |w| == |v0| && w[f..] == v0[f..] && OneSense(cmp, v0, f, f2, sense)
    ensures OneSense(cmp, w, f, f2, sense)
  {
    forall i | f <= i < |w| ensures w[i] == v0[i] {
      assert w[i] == w[f..][i - f] && v0[i] == v0[f..][i - f];
    }
  }

  /** A run made and linked to what comes after it. */
  method LinkRun<T(!new)>(list1: array<Cell<T>>, list2: array<Cell<T>>, f1: nat, f2: nat, sense: bool, cmp: Cmp<T>,
      ghost v0: seq<T>, ghost bs0: seq<nat>) returns (ghost bs: seq<nat>)
    requires TotalPreorder(cmp) && list1 != list2 && f1 + 2 <= f2 <= list1.Length
    requires RunState(cmp, list1[..], list2[..], v0, f1, bs0) && OneSense(cmp, v0, f1, f2, sense)
    modifies list1, list2
    ensures RunState(cmp, list1[..], list2[..], v0, f2, bs) && list2[f2..] == old(list2[f2..])
  {
    hide TotalPreorder, Stable, Bounds, Chain, SortedRun, SortedRuns, OneSense;
    ghost var l1, l2 := list1[..], list2[..];
    SenseKept(cmp, Vals(l1), v0, f1, f2, sense);
    list2[f1] := Link(f2);
    MakeRun(list1, f1, f2, sense, cmp);
    assert list2[..] == l2[f1 := Link(f2)];
    NextRun(cmp, l1, list1[..], l2, v0, f1, f2, bs0);
    bs := bs0 + [f2];
  }

  /** The last run of a long stretch: it ends with the stretch, or is joined to the sorted tail. */
  method LastRun<T(!new)>(list1: array<Cell<T>>, list2: array<Cell<T>>, f1: nat, f2: nat, last: nat, sense: bool, cmp: Cmp<T>,
      ghost v0: seq<T>, ghost bs0: seq<nat>) returns (p2: nat, ghost bs: seq<nat>)
    requires TotalPreorder(cmp) && list1 != list2 && f1 + 2 <= f2 <= last < list1.Length
    requires RunState(cmp, list1[..], list2[..], v0, f1, bs0) && OneSense(cmp, v0, f1, f2, sense)
    requires SortedRun(cmp, v0, last, |v0|)
    modifies list1, list2
    ensures list2[last] == old(list2[last])
    ensures (p2 == f2 && RunState(cmp, list1[..], list2[..], v0, f2, bs)) ||
            (f2 == last && p2 == list1.Length && RunState(cmp, list1[..], list2[..], v0, p2, bs))
  {
    hide TotalPreorder, Stable, Bounds, Chain, SortedRun, SortedRuns, OneSense;
    ghost var l1, l2, w := list1[..], list2[..], Vals(list1[..]);
    SenseKept(cmp, w, v0, f1, f2, sense);
    TailKept(w, v0, f1, last, cmp);
    MakeRun(list1, f1, f2, sense, cmp);
    ghost var w' := Vals(list1[..]);
    assert w'[f2..] == w[f2..] by {
      assert forall i :: 0 <= i < |l1| - f2 ==> list1[..][f2..][i] == l1[f2..][i];
    }
    if f2 < last || cmp(list1[f2 - 1].v, list1[f2].v) > 0 {
      list2[f1] := Link(f2);
      p2 := f2;
      assert list2[..] == l2[f1 := Link(f2)];
    } else {
      TailKept(w', w, last, last, cmp);
      JoinTail(cmp, w', f1, last);
      StableRefl(cmp, w[f2..]);
      StableCat(cmp, w[f1..f2], w'[f1..f2], w[f2..], w'[f2..]);
      assert w[f1..f2] + w[f2..] == w[f1..|w|] && w'[f1..f2] + w'[f2..] == w'[f1..|w|];
      list2[f1] := Link(list1.Length);
      p2 := list1.Length;
      assert list2[..] == l2[f1 := Link(p2)];
    }
    NextRun(cmp, l1, list1[..], l2, v0, f1, p2, bs0);
    bs := bs0 + [p2];
  }

  lemma SensePair<T>(cmp: Cmp<T>, w: seq<T>, start: nat, l2: nat, k: nat, sense: bool)
    requires PairSense(cmp, w, start, l2, sense) && start <= k < l2 && (k - start) % 2 == 0 && k + 1 < |w|
    ensures OneSense(cmp, w, k, k + 2, sense)
  {
  }

  lemma SenseMore<T>(cmp: Cmp<T>, w: seq<T>, f1: nat, f2: nat, sense: bool)
    requires OneSense(cmp, w, f1, f2, sense) && OneSense(cmp, w, f2, f2 + 2, sense) && 0 < f2 < |w|
    ensures (cmp(w[f2 - 1], w[f2]) > 0) == sense ==> OneSense(cmp, w, f1, f2 + 2, sense)
  {
  }

  /** Long stretches: the runs that are there, turned round where they fall. */
  method NaturalRuns<T(!new)>(list1: array<Cell<T>>, list2: array<Cell<T>>, start: nat, l2: nat, last: nat, sense: bool,
      cmp: Cmp<T>, ghost v0: seq<T>, ghost bs0: seq<nat>) returns (p2: nat, ghost bs: seq<nat>)
    requires TotalPreorder(cmp) && list1 != list2 && start + 2 <= l2 <= last < list1.Length && (l2 - start) % 2 == 0
    requires RunState(cmp, list1[..], list2[..], v0, start, bs0) && PairSense(cmp, v0, start, l2, sense)
    requires SortedRun(cmp, v0, last, |v0|)
    modifies list1, list2
    ensures list2[last] == old(list2[last])
    ensures (p2 == l2 && RunState(cmp, list1[..], list2[..], v0, l2, bs)) ||
            (l2 == last && p2 == list1.Length && RunState(cmp, list1[..], list2[..], v0, p2, bs))
  {
    hide TotalPreorder, Stable, Bounds, Chain, SortedRun, SortedRuns, OneSense, PairSense;
    var f1, f2 := start, start + 2;
    bs, p2 := bs0, start;
    SensePair(cmp, v0, start, l2, start, sense);
    while f2 < l2
      invariant start <= f1 && f1 + 2 <= f2 <= l2 && (f2 - start) % 2 == 0
      invariant RunState(cmp, list1[..], list2[..], v0, f1, bs) && OneSense(cmp, v0, f1, f2, sense)
      invariant list2[last] == old(list2[last])
    {
      ghost var w := Vals(list1[..]);
      assert w[f1..][f2 - 1 - f1] == v0[f1..][f2 - 1 - f1] && w[f1..][f2 - f1] == v0[f1..][f2 - f1];
      SensePair(cmp, v0, start, l2, f2, sense);
      SenseMore(cmp, v0, f1, f2, sense);
      if (cmp(list1[f2 - 1].v, list1[f2].v) > 0) != sense {
        bs := LinkRun(list1, list2, f1, f2, sense, cmp, v0, bs);
        assert list2[f2..][last - f2] == list2[last];
        f1 := f2;
      }
      f2 := f2 + 2;
    }
    p2, bs := LastRun(list1, list2, f1, f2, last, sense, cmp, v0, bs);
  }

  /** The pairs of one sense from `f1` on, as short runs or long ones. */
  method Stretch<T(!new)>(list1: array<Cell<T>>, list2: array<Cell<T>>, f1: nat, last: nat, sense: bool, cmp: Cmp<T>,
      ghost v0: seq<T>, ghost bs0: seq<nat>) returns (f2: nat, p2: nat, ghost bs: seq<nat>)
    requires TotalPreorder(cmp) && list1 != list2 && f1 + 2 <= last < list1.Length && (last - f1) % 2 == 0
    requires RunState(cmp, list1[..], list2[..], v0, f1, bs0) && SortedRun(cmp, v0, last, |v0|)
    requires (cmp(v0[f1], v0[f1 + 1]) > 0) == sense
    modifies list1, list2
    ensures f1 + 2 <= f2 <= last && (f2 - f1) % 2 == 0 && list2[last] == old(list2[last])
    ensures RunState(cmp, list1[..], list2[..], v0, p2, bs) && (p2 == f2 || (f2 == last && p2 == list1.Length))
    ensures f2 < last ==> (cmp(v0[f2], v0[f2 + 1]) > 0) != sense
  {
    hide TotalPreorder, Stable, Bounds, Chain, SortedRun, SortedRuns, PairSense;
    f2 := PairsEnd(list1, f1, last, sense, cmp, v0);
    if f2 - f1 < THRESHOLD {
      p2, bs := PairRuns(list1, list2, f1, f2, sense, cmp, v0, bs0);
      assert list2[f2..][last - f2] == list2[last];
    } else {
      p2, bs := NaturalRuns(list1, list2, f1, f2, last, sense, cmp, v0, bs0);
    }
  }

  /** Five elements or fewer are one run. */
  method SetupSmall<T(!new)>(list1: array<Cell<T>>, list2: array<Cell<T>>, cmp: Cmp<T>) returns (ghost bs: seq<nat>)
    requires TotalPreorder(cmp) && list1 != list2 && list2.Length == list1.Length >= 1 && AllElem(list1[..])
    modifies list1, list2
    ensures RunState(cmp, list1[..], list2[..], old(Vals(list1[..])), list1.Length, bs)
  {
    hide TotalPreorder, Stable, Bounds, Chain, SortedRun, SortedRuns;
    var n := list1.Length;
    ghost var cells, l2 := list1[..], list2[..];
    InsertionSort(list1, 0, n, cmp);
    NoRuns(cmp, cells, l2);
    list2[0] := Link(n);
    NextRun(cmp, cells, list1[..], l2, Vals(cells), 0, n, [0]);
    assert list2[..] == l2[0 := Link(n)];
    bs := [0] + [n];
  }

  /**
   `setup`: the array rearranged into runs, their ends listed in the idle array.  The last four or five
   elements are sorted first; then pairs of one sense are collected.
   */
  method Setup<T(!new)>(list1: array<Cell<T>>, list2: array<Cell<T>>, cmp: Cmp<T>) returns (ghost bs: seq<nat>)
    requires TotalPreorder(cmp) && list1 != list2 && list2.Length == list1.Length >= 1 && AllElem(list1[..])
    modifies list1, list2
    ensures RunState(cmp, list1[..], list2[..], old(Vals(list1[..])), list1.Length, bs)
  {
    hide TotalPreorder, Stable, Bounds, Chain, SortedRun, SortedRuns, PairSense;
    ghost var was := Vals(list1[..]);
    var n := list1.Length;
    if n <= 5 {
      bs := SetupSmall(list1, list2, cmp);
      return;
    }
    var i := 4 + n % 2;
    var last := n - i;
    ghost var cells := list1[..];
    InsertionSort(list1, last, i, cmp);
    ghost var v0 := Vals(list1[..]);
    TailSorted(cmp, cells, list1[..], last);
    list2[last] := Link(n);
    NoRuns(cmp, list1[..], list2[..]);
    bs := [0];
    var f1, p2 := 0, 0;
    var sense := cmp(list1[0].v, list1[1].v) > 0;
    while f1 < last
      invariant f1 <= last && f1 % 2 == 0 && last % 2 == 0
      invariant list2[last] == Link(n)
      invariant RunState(cmp, list1[..], list2[..], v0, p2, bs)
      invariant p2 == f1 || (f1 == last && p2 == n)
      invariant f1 < last ==> (cmp(v0[f1], v0[f1 + 1]) > 0) == sense
    {
      f1, p2, bs := Stretch(list1, list2, f1, last, sense, cmp, v0, bs);
      sense := !sense;
    }
    if p2 == last {
      TailRun(cmp, list1[..], list2[..], v0, last, bs);
      bs := bs + [n];
    }
    Rebase(cmp, list1[..], list2[..], was, v0, n, bs);
  }

  lemma TailRun<T(!new)>(cmp: Cmp<T>, l1: seq<Cell<T>>, l2: seq<Cell<T>>, v0: seq<T>, last: nat, bs: seq<nat>)
    requires RunState(cmp, l1, l2, v0, last, bs) && last < |l1| && l2[last] == Link(|l1|) && SortedRun(cmp, v0, last, |v0|)
    ensures RunState(cmp, l1, l2, v0, |l1|, bs + [|l1|])
  {
    hide Stable, Bounds, Chain, SortedRun, SortedRuns;
    assert l2 == l2[last := Link(|l1|)];
    TailKept(Vals(l1), v0, last, last, cmp);
    StableRefl(cmp, Vals(l1)[last..|l1|]);
    NextRun(cmp, l1, l1, l2, v0, last, |l1|, bs);
  }

  lemma TailSorted<T(!new)>(cmp: Cmp<T>, cells: seq<Cell<T>>, cells': seq<Cell<T>>, last: nat)
    requires AllElem(cells) && AllElem(cells') && last <= |cells| == |cells'| && cells'[..last] == cells[..last]
    requires Stable(cmp, Vals(cells)[last..|cells|], Vals(cells')[last..|cells|])
    ensures Stable(cmp, Vals(cells), Vals(cells'))
  {
    hide Stable;
    var w, w' := Vals(cells), Vals(cells');
    assert w'[..last] == w[..last] by { assert forall i :: 0 <= i < last ==> cells'[..last][i] == cells[..last][i]; }
    StableInside(cmp, w, last, |w|, w'[last..|w|]);
    assert w' == w[..last] + w'[last..|w|] + w[|w|..];
  }

  lemma Rebase<T(!new)>(cmp: Cmp<T>, l1: seq<Cell<T>>, l2: seq<Cell<T>>, was: seq<T>, v0: seq<T>, n: nat, bs: seq<nat>)
    requires RunState(cmp, l1, l2, v0, n, bs) && Stable(cmp, was, v0) && n == |l1| == |was|
    ensures RunState(cmp, l1, l2, was, n, bs)
  {
    hide Bounds, Chain, SortedRuns;
    StableTrans(cmp, was, v0, Vals(l1));
  }

  /** The pairs that compare with the same sense as the first. */
  method PairsEnd<T(!new)>(list1: array<Cell<T>>, f1: nat, last: nat, sense: bool, cmp: Cmp<T>, ghost v0: seq<T>) returns (f2: nat)
    requires AllElem(list1[..]) && f1 + 2 <= last < list1.Length == |v0| && (last - f1) % 2 == 0
    requires Vals(list1[..])[f1..] == v0[f1..] && (cmp(v0[f1], v0[f1 + 1]) > 0) == sense
    ensures f1 + 2 <= f2 <= last && (f2 - f1) % 2 == 0 && PairSense(cmp, v0, f1, f2, sense)
    ensures f2 < last ==> (cmp(v0[f2], v0[f2 + 1]) > 0) != sense
  {
    f2 := f1 + 2;
    while f2 < last
      invariant f1 + 2 <= f2 <= last && (f2 - f1) % 2 == 0 && PairSense(cmp, v0, f1, f2, sense)
    {
      ghost var w := Vals(list1[..]);
      assert w[f1..][f2 - f1] == v0[f1..][f2 - f1] && w[f1..][f2 + 1 - f1] == v0[f1..][f2 + 1 - f1];
      if (cmp(list1[f2].v, list1[f2 + 1].v) > 0) != sense {
        break;
      }
      f2 := f2 + 2;
    }
  }
}
