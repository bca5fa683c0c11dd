/**
 What a stable sort is, for a comparator that is a total preorder, and the merge of two sorted
 sequences.
 */
module Ordering {

  type Cmp<!T> = (T, T) -> int

  ghost predicate TotalPreorder<T(!new)>(cmp: Cmp<T>) {
    && (forall x, y :: cmp(x, y) > 0 <==> cmp(y, x) < 0)
    && (forall x, y, z :: cmp(x, y) <= 0 && cmp(y, z) <= 0 ==> cmp(x, z) <= 0)
  }

  ghost predicate Sorted<T>(cmp: Cmp<T>, s: seq<T>) {
    forall i, j :: 0 <= i < j < |s| ==> cmp(s[i], s[j]) <= 0
  }

  /** The elements equal to `x` in the order, as they stand. */
  function Class<T>(cmp: Cmp<T>, s: seq<T>, x: T): seq<T> {
    if s == [] then []
    else Class(cmp, s[..|s| - 1], x) + if cmp(s[|s| - 1], x) == 0 then [s[|s| - 1]] else []
  }

  /** The same elements, and equal ones in the same order. */
  ghost predicate Stable<T(!new)>(cmp: Cmp<T>, a: seq<T>, b: seq<T>) {
    multiset(a) == multiset(b) && forall x :: Class(cmp, a, x) == Class(cmp, b, x)
  }

  lemma {:induction false} ClassAppend<T>(cmp: Cmp<T>, a: seq<T>, b: seq<T>, x: T)
    ensures Class(cmp, a + b, x) == Class(cmp, a, x) + Class(cmp, b, x)
  {
    if b == [] {
      assert a + b == a;
    } else {
      assert (a + b)[..|a + b| - 1] == a + b[..|b| - 1];
      ClassAppend(cmp, a, b[..|b| - 1], x);
    }
  }

  lemma {:induction false} ClassNone<T>(cmp: Cmp<T>, s: seq<T>, x: T)
    requires forall i :: 0 <= i < |s| ==> cmp(s[i], x) != 0
    ensures Class(cmp, s, x) == []
  {
    if s != [] {
      ClassNone(cmp, s[..|s| - 1], x);
    }
  }

  lemma StableRefl<T(!new)>(cmp: Cmp<T>, a: seq<T>)
    ensures Stable(cmp, a, a)
  {
  }

  lemma StableTrans<T(!new)>(cmp: Cmp<T>, a: seq<T>, b: seq<T>, c: seq<T>)
    requires Stable(cmp, a, b) && Stable(cmp, b, c)
    ensures Stable(cmp, a, c)
  {
  }

  lemma StableCat<T(!new)>(cmp: Cmp<T>, a: seq<T>, a': seq<T>, b: seq<T>, b': seq<T>)
    requires Stable(cmp, a, a') && Stable(cmp, b, b')
    ensures Stable(cmp, a + b, a' + b')
  {
    forall x ensures Class(cmp, a + b, x) == Class(cmp, a' + b', x) {
      ClassAppend(cmp, a, b, x);
      ClassAppend(cmp, a', b', x);
    }
  }

  /** Rearranging a stretch in a stable way is stable for the whole. */
  lemma StableInside<T(!new)>(cmp: Cmp<T>, s: seq<T>, i: nat, j: nat, mid: seq<T>)
    requires i <= j <= |s| && Stable(cmp, s[i..j], mid)
    ensures Stable(cmp, s, s[..i] + mid + s[j..])
  {
    assert s == s[..i] + s[i..j] + s[j..];
    StableRefl(cmp, s[..i]);
    StableRefl(cmp, s[j..]);
    StableCat(cmp, s[..i], s[..i], s[i..j], mid);
    StableCat(cmp, s[..i] + s[i..j], s[..i] + mid, s[j..], s[j..]);
  }

  function Reverse<T>(s: seq<T>): (r: seq<T>)
    ensures |r| == |s| && forall i :: 0 <= i < |s| ==> r[i] == s[|s| - 1 - i]
  {
    if s == [] then [] else [s[|s| - 1]] + Reverse(s[..|s| - 1])
  }

  ghost predicate Descending<T>(cmp: Cmp<T>, s: seq<T>) {
    forall i, j :: 0 <= i < j < |s| ==> cmp(s[i], s[j]) > 0
  }

  lemma Flip<T(!new)>(cmp: Cmp<T>, x: T, y: T)
    requires TotalPreorder(cmp)
    ensures cmp(x, y) > 0 <==> cmp(y, x) < 0
    ensures cmp(x, y) == 0 <==> cmp(y, x) == 0
  {
  }

  lemma {:induction false} ReverseKeeps<T>(s: seq<T>)
    ensures multiset(Reverse(s)) == multiset(s)
  {
    if s != [] {
      ReverseKeeps(s[..|s| - 1]);
      assert s == s[..|s| - 1] + [s[|s| - 1]];
    }
  }

  lemma {:induction false} ReverseClass<T(!new)>(cmp: Cmp<T>, s: seq<T>, x: T)
    requires TotalPreorder(cmp) && Descending(cmp, s)
    ensures Class(cmp, Reverse(s), x) == Class(cmp, s, x)
  {
    hide TotalPreorder;
    if s != [] {
      var init, z := s[..|s| - 1], s[|s| - 1];
      ReverseClass(cmp, init, x);
      ClassAppend(cmp, [z], Reverse(init), x);
      if cmp(z, x) == 0 {
        forall i | 0 <= i < |init| ensures cmp(init[i], x) != 0 {
          Apart(cmp, s[i], z, x);
        }
        ClassNone(cmp, init, x);
      } else {
        ClassNone(cmp, [z], x);
      }
    }
  }

  /** Reversing a strictly descending run sorts it, and no two of its elements are equal in the order. */
  lemma ReverseDescending<T(!new)>(cmp: Cmp<T>, s: seq<T>)
    requires TotalPreorder(cmp) && Descending(cmp, s)
    ensures Sorted(cmp, Reverse(s)) && Stable(cmp, s, Reverse(s))
  {
    hide Class, TotalPreorder, Reverse;
    ReverseKeeps(s);
    forall x ensures Class(cmp, s, x) == Class(cmp, Reverse(s), x) {
      ReverseClass(cmp, s, x);
    }
    var r := Reverse(s);
    forall i, j | 0 <= i < j < |r| ensures cmp(r[i], r[j]) <= 0 {
      Flip(cmp, r[j], r[i]);
    }
  }

  lemma Apart<T(!new)>(cmp: Cmp<T>, a: T, b: T, x: T)
    requires TotalPreorder(cmp) && cmp(a, b) > 0 && cmp(b, x) == 0
    ensures cmp(a, x) != 0
  {
  }

  // ----- merging -----

  function Merge<T>(cmp: Cmp<T>, a: seq<T>, b: seq<T>): (r: seq<T>)
    ensures |r| == |a| + |b|
  {
    if a == [] then b
    else if b == [] then a
    else if cmp(a[0], b[0]) <= 0 then [a[0]] + Merge(cmp, a[1..], b)
    else [b[0]] + Merge(cmp, a, b[1..])
  }

  lemma {:induction false} MergeKeeps<T>(cmp: Cmp<T>, a: seq<T>, b: seq<T>)
    ensures multiset(Merge(cmp, a, b)) == multiset(a) + multiset(b)
  {
    if a != [] && b != [] {
      assert a == [a[0]] + a[1..] && b == [b[0]] + b[1..];
      if cmp(a[0], b[0]) <= 0 {
        MergeKeeps(cmp, a[1..], b);
      } else {
        MergeKeeps(cmp, a, b[1..]);
      }
    }
  }

  lemma {:induction false} MergeSorts<T(!new)>(cmp: Cmp<T>, a: seq<T>, b: seq<T>)
    requires TotalPreorder(cmp) && Sorted(cmp, a) && Sorted(cmp, b)
    ensures Sorted(cmp, Merge(cmp, a, b))
  {
    hide TotalPreorder;
    if a != [] && b != [] {
      if cmp(a[0], b[0]) <= 0 {
        MergeSorts(cmp, a[1..], b);
        Put(cmp, a, b, a[0], a[1..], b);
      } else {
        MergeSorts(cmp, a, b[1..]);
        Put(cmp, a, b, b[0], a, b[1..]);
      }
    }
  }

  /** The least element in front of the rest merged. */
  lemma Put<T(!new)>(cmp: Cmp<T>, a: seq<T>, b: seq<T>, h: T, a': seq<T>, b': seq<T>)
    requires TotalPreorder(cmp) && Sorted(cmp, a) && Sorted(cmp, b) && a != [] && b != []
    requires h == if cmp(a[0], b[0]) <= 0 then a[0] else b[0]
    requires (a' == a || a' == a[1..]) && (b' == b || b' == b[1..]) && Sorted(cmp, Merge(cmp, a', b'))
    ensures Sorted(cmp, [h] + Merge(cmp, a', b'))
  {
    hide TotalPreorder, Merge;
    var rest := Merge(cmp, a', b');
    MergeKeeps(cmp, a', b');
    forall i | 0 <= i < |rest| ensures cmp(h, rest[i]) <= 0 {
      assert rest[i] in multiset(rest);
      assert rest[i] in a' || rest[i] in b';
      Least(cmp, a, b, h, rest[i]);
    }
  }

  lemma Least<T(!new)>(cmp: Cmp<T>, a: seq<T>, b: seq<T>, h: T, y: T)
    requires TotalPreorder(cmp) && Sorted(cmp, a) && Sorted(cmp, b) && a != [] && b != []
    requires h == if cmp(a[0], b[0]) <= 0 then a[0] else b[0]
    requires y in a || y in b
    ensures cmp(h, y) <= 0
  {
    assert cmp(h, a[0]) <= 0 && cmp(h, b[0]) <= 0;
    if y in a {
      var i :| 0 <= i < |a| && a[i] == y;
      assert cmp(a[0], y) <= 0;
    } else {
      var i :| 0 <= i < |b| && b[i] == y;
      assert cmp(b[0], y) <= 0;
    }
  }

  /** Merging puts equal elements of `a` before those of `b`. */
  lemma {:induction false} MergeClass<T(!new)>(cmp: Cmp<T>, a: seq<T>, b: seq<T>, x: T)
    requires TotalPreorder(cmp) && Sorted(cmp, a) && Sorted(cmp, b)
    ensures Class(cmp, Merge(cmp, a, b), x) == Class(cmp, a, x) + Class(cmp, b, x)
  {
    hide TotalPreorder, Class;
    if a == [] || b == [] {
      ClassNone(cmp, [], x);
    } else if cmp(a[0], b[0]) <= 0 {
      MergeClass(cmp, a[1..], b, x);
      ClassAppend(cmp, [a[0]], Merge(cmp, a[1..], b), x);
      ClassAppend(cmp, [a[0]], a[1..], x);
      Exchange(Class(cmp, [a[0]], x), Class(cmp, a[1..], x), Class(cmp, b, x));
      assert a == [a[0]] + a[1..];
    } else {
      MergeClass(cmp, a, b[1..], x);
      ClassAppend(cmp, [b[0]], Merge(cmp, a, b[1..]), x);
      ClassAppend(cmp, [b[0]], b[1..], x);
      ClassAfter(cmp, a, b[0], x);
      Exchange(Class(cmp, [b[0]], x), Class(cmp, a, x), Class(cmp, b[1..], x));
      assert b == [b[0]] + b[1..];
    }
  }

  lemma Exchange<T>(h: seq<T>, a: seq<T>, b: seq<T>)
    ensures h + (a + b) == (h + a) + b
    ensures a == [] || h == [] ==> h + (a + b) == a + (h + b)
  {
  }

  /** What is smaller than a sorted sequence is not equal to the same as any of it. */
  lemma ClassAfter<T(!new)>(cmp: Cmp<T>, a: seq<T>, y: T, x: T)
    requires TotalPreorder(cmp) && Sorted(cmp, a) && a != [] && cmp(a[0], y) > 0
    ensures Class(cmp, a, x) == [] || Class(cmp, [y], x) == []
  {
    hide Class;
    if cmp(y, x) == 0 {
      forall i | 0 <= i < |a| ensures cmp(a[i], x) != 0 {
        assert i > 0 ==> cmp(a[0], a[i]) <= 0;
        Apart(cmp, a[i], y, x);
      }
      ClassNone(cmp, a, x);
    } else {
      ClassNone(cmp, [y], x);
    }
  }

  lemma MergeStable<T(!new)>(cmp: Cmp<T>, a: seq<T>, b: seq<T>)
    requires TotalPreorder(cmp) && Sorted(cmp, a) && Sorted(cmp, b)
    ensures Sorted(cmp, Merge(cmp, a, b)) && Stable(cmp, a + b, Merge(cmp, a, b))
  {
    MergeSorts(cmp, a, b);
    MergeKeeps(cmp, a, b);
    forall x ensures Class(cmp, a + b, x) == Class(cmp, Merge(cmp, a, b), x) {
      MergeClass(cmp, a, b, x);
      ClassAppend(cmp, a, b, x);
    }
  }

  /** A whole stretch of `a` goes before the first element of `b`. */
  lemma {:induction false} GallopLeft<T>(cmp: Cmp<T>, a: seq<T>, b: seq<T>, k: nat)
    requires b != [] && k <= |a| && forall i :: 0 <= i < k ==> cmp(a[i], b[0]) <= 0
    requires k < |a| ==> cmp(a[k], b[0]) > 0
    ensures Merge(cmp, a, b) == a[..k] + [b[0]] + Merge(cmp, a[k..], b[1..])
  {
    hide Merge;
    if k == 0 {
      TakeRight(cmp, a, b);
      assert a[..0] == [] && a[0..] == a;
    } else {
      GallopLeft(cmp, a[1..], b, k - 1);
      TakeLeft(cmp, a, b);
      Prefixed(a, k, [b[0]], Merge(cmp, a[k..], b[1..]));
    }
  }

  /** A whole stretch of `b` goes before the first element of `a`. */
  lemma {:induction false} GallopRight<T>(cmp: Cmp<T>, a: seq<T>, b: seq<T>, k: nat)
    requires a != [] && k <= |b| && forall i :: 0 <= i < k ==> cmp(a[0], b[i]) > 0
    requires k < |b| ==> cmp(a[0], b[k]) <= 0
    ensures Merge(cmp, a, b) == b[..k] + [a[0]] + Merge(cmp, a[1..], b[k..])
  {
    hide Merge;
    if k == 0 {
      TakeLeft(cmp, a, b);
      assert b[..0] == [] && b[0..] == b;
    } else {
      GallopRight(cmp, a, b[1..], k - 1);
      TakeRight(cmp, a, b);
      Prefixed(b, k, [a[0]], Merge(cmp, a[1..], b[k..]));
    }
  }

  lemma TakeLeft<T>(cmp: Cmp<T>, a: seq<T>, b: seq<T>)
    requires a != [] && (b != [] ==> cmp(a[0], b[0]) <= 0)
    ensures Merge(cmp, a, b) == [a[0]] + Merge(cmp, a[1..], b)
  {
    if b == [] {
      assert a == [a[0]] + a[1..];
    }
  }

  lemma TakeRight<T>(cmp: Cmp<T>, a: seq<T>, b: seq<T>)
    requires b != [] && (a != [] ==> cmp(a[0], b[0]) > 0)
    ensures Merge(cmp, a, b) == [b[0]] + Merge(cmp, a, b[1..])
  {
    if a == [] {
      assert Merge(cmp, a, b) == b && Merge(cmp, a, b[1..]) == b[1..];
      assert b == [b[0]] + b[1..];
    } else {
      assert cmp(a[0], b[0]) > 0;
    }
  }

  lemma Prefixed<T>(b: seq<T>, k: nat, m: seq<T>, rest: seq<T>)
    requires 0 < k <= |b|
    ensures [b[0]] + (b[1..][..k - 1] + m + rest) == b[..k] + m + rest && b[1..][k - 1..] == b[k..]
  {
    assert b[..k] == [b[0]] + b[1..][..k - 1];
  }

  // ----- only one answer -----

  lemma {:induction false} ClassLeast<T(!new)>(cmp: Cmp<T>, s: seq<T>)
    requires TotalPreorder(cmp) && Sorted(cmp, s) && s != []
    ensures Class(cmp, s, s[0]) != [] && Class(cmp, s, s[0])[0] == s[0]
  {
    assert s == [s[0]] + s[1..];
    ClassAppend(cmp, [s[0]], s[1..], s[0]);
    assert [s[0]][..0] == [];
  }

  lemma SameHead<T(!new)>(cmp: Cmp<T>, a: seq<T>, b: seq<T>)
    requires TotalPreorder(cmp) && Sorted(cmp, a) && Sorted(cmp, b) && Stable(cmp, a, b) && a != []
    ensures b != [] && a[0] == b[0]
  {
    hide TotalPreorder, Class;
    assert a[0] in multiset(a);
    assert b != [] && b[0] in multiset(b);
    Extremes(cmp, a, b);
    ClassLeast(cmp, a);
    ClassLeast(cmp, b);
    SameClass(cmp, b, a[0], b[0]);
  }

  lemma SameTail<T(!new)>(cmp: Cmp<T>, a: seq<T>, b: seq<T>)
    requires Stable(cmp, a, b) && a != [] && b != [] && a[0] == b[0]
    ensures Stable(cmp, a[1..], b[1..])
  {
    hide Class;
    assert a == [a[0]] + a[1..] && b == [b[0]] + b[1..];
    assert multiset(a[1..]) == multiset(a) - multiset{a[0]};
    assert multiset(b[1..]) == multiset(b) - multiset{b[0]};
    forall x ensures Class(cmp, a[1..], x) == Class(cmp, b[1..], x) {
      ClassAppend(cmp, [a[0]], a[1..], x);
      ClassAppend(cmp, [b[0]], b[1..], x);
      Cancel(Class(cmp, [a[0]], x), Class(cmp, a[1..], x), Class(cmp, b[1..], x));
    }
  }

  lemma Cancel<T>(h: seq<T>, a: seq<T>, b: seq<T>)
    requires h + a == h + b
    ensures a == b
  {
    assert a == (h + a)[|h|..] && b == (h + b)[|h|..];
  }

  /** Sorted and stable leaves no choice. */
  lemma {:induction false} StableUnique<T(!new)>(cmp: Cmp<T>, a: seq<T>, b: seq<T>)
    requires TotalPreorder(cmp) && Sorted(cmp, a) && Sorted(cmp, b) && Stable(cmp, a, b)
    ensures a == b
  {
    hide TotalPreorder, Stable;
    if a != [] {
      SameHead(cmp, a, b);
      SameTail(cmp, a, b);
      StableUnique(cmp, a[1..], b[1..]);
      assert a == [a[0]] + a[1..] && b == [b[0]] + b[1..];
    } else {
      SameLength(cmp, a, b);
    }
  }

  lemma SameLength<T(!new)>(cmp: Cmp<T>, a: seq<T>, b: seq<T>)
    requires Stable(cmp, a, b)
    ensures |a| == |b|
  {
    assert |a| == |multiset(a)| == |multiset(b)| == |b|;
  }

  lemma Extremes<T(!new)>(cmp: Cmp<T>, a: seq<T>, b: seq<T>)
    requires TotalPreorder(cmp) && Sorted(cmp, a) && Sorted(cmp, b) && a != [] && b != [] && a[0] in b && b[0] in a
    ensures cmp(a[0], b[0]) == 0
  {
    var i :| 0 <= i < |b| && b[i] == a[0];
    var j :| 0 <= j < |a| && a[j] == b[0];
    assert cmp(b[0], a[0]) <= 0 && cmp(a[0], b[0]) <= 0;
  }

  lemma {:induction false} SameClass<T(!new)>(cmp: Cmp<T>, s: seq<T>, x: T, y: T)
    requires TotalPreorder(cmp) && cmp(x, y) == 0
    ensures Class(cmp, s, x) == Class(cmp, s, y)
  {
    if s != [] {
      SameClass(cmp, s[..|s| - 1], x, y);
    }
  }
}
